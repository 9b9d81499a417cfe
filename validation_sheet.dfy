/**
 * `AddValidationList` and `AddValidationDependentList`: they write the
 * allowed values into the next free column(s) of a validation worksheet and
 * point a list validation at the range they filled.
 */
module ValidationSheet {
  import opened Wrappers

  /** A cell position, 1-based as in EPPlus. */
  datatype Pos = Pos(row: int, col: int)

  /** The columns of a worksheet's used range (`Dimension`), first to last. */
  datatype ColumnSpan = ColumnSpan(first: int, last: int)

  /** `CellRange(fromRow, fromCol, toRow, toCol).FullAddressAbsolute` on the named sheet. */
  datatype RangeAddress = RangeAddress(sheet: string, fromRow: int, fromCol: int, toRow: int, toCol: int)

  /** A list validation: its `Formula.ExcelFormula` range, `ShowErrorMessage` and `Error`. */
  datatype ListRule = ListRule(source: RangeAddress, showErrorMessage: bool, error: string)

  /**
   * The validation put on the dependent range: an `OFFSET` from the first
   * principal cell, matched against the principal row, reading the column
   * `columnOffset` places to the side of the dependent cell.
   */
  datatype DependentRule = DependentRule(start: RangeAddress, principals: RangeAddress, columnOffset: int,
                                         showErrorMessage: bool, error: string)

  /** One dictionary entry of `AddValidationDependentList`: a principal name and its dependent names. */
  datatype Entry = Entry(principal: string, dependents: seq<string>)

  /** The default error text of both list validations. */
  const InvalidValue := "Invalid value"

  /** The cells in use occupy exactly the columns of `dim`, which is absent only for an empty sheet. */
  ghost predicate IsColumnExtent(cells: map<Pos, string>, dim: Option<ColumnSpan>) {
    match dim
    case None => cells == map[]
    case Some(span) =>
      && 1 <= span.first <= span.last
      && (forall p :: p in cells ==> span.first <= p.col <= span.last)
      && (exists p :: p in cells && p.col == span.first)
      && (exists p :: p in cells && p.col == span.last)
  }

  /** The used columns after a cell of column `col` receives a value. */
  function Extend(dim: Option<ColumnSpan>, col: int): (span: ColumnSpan)
    ensures span.first <= col <= span.last
    ensures dim.Some? ==> span.first <= dim.value.first && dim.value.last <= span.last
  {
    match dim
    case None => ColumnSpan(col, col)
    case Some(s) => ColumnSpan(if col < s.first then col else s.first, if col > s.last then col else s.last)
  }

  /**
   * The column both methods start writing at:
   * `Dimension != null ? Dimension.Columns + 1 : 1`.
   */
  function NextColumn(dim: Option<ColumnSpan>): (c: int)
    ensures dim.None? ==> c == 1
    ensures dim.Some? ==> c == dim.value.last - dim.value.first + 2
  {
    match dim
    case None => 1
    case Some(span) => (span.last - span.first + 1) + 1
  }

  /**
   * When the used range starts in column A (as it does on a sheet that only
   * these methods fill), the next column lies right of every used cell.
   */
  lemma NextColumnIsFree(cells: map<Pos, string>, dim: Option<ColumnSpan>)
    requires IsColumnExtent(cells, dim)
    requires dim.None? || dim.value.first == 1
    ensures NextColumn(dim) >= 1
    ensures forall p :: p in cells ==> p.col < NextColumn(dim)
  {
  }

  /**
   * `Columns` counts the used columns rather than naming the last one: a sheet
   * whose only value sits in column B gets its list written over column B.
   */
  lemma NextColumnOverlapsOffsetRange(cells: map<Pos, string>, dim: Option<ColumnSpan>)
    requires cells == map[Pos(1, 2) := "x"]
    requires IsColumnExtent(cells, dim)
    ensures NextColumn(dim) == 2
    ensures Pos(1, NextColumn(dim)) in cells
  {
    var p :| p in cells && p.col == dim.value.first;
    var q :| q in cells && q.col == dim.value.last;
    assert p == Pos(1, 2) && q == Pos(1, 2);
  }

  /** What `SetText` changes on a worksheet: the values of its cells and its used columns. */
  datatype SheetState = SheetState(cells: map<Pos, string>, dimension: Option<ColumnSpan>)

  /** The sheet invariant: cells sit at positive positions and `dimension` is their exact column extent. */
  ghost predicate ValidState(s: SheetState) {
    && (forall p :: p in s.cells ==> p.row >= 1 && p.col >= 1)
    && IsColumnExtent(s.cells, s.dimension)
  }

  /** One `SetText`: the cell's value becomes the text, and the used range grows to cover the cell. */
  function SetCell(s: SheetState, at: Pos, text: string): SheetState {
    SheetState(s.cells[at := text], Some(Extend(s.dimension, at.col)))
  }

  /** Setting a cell at a valid position keeps the sheet invariant. */
  lemma SetCellKeepsValid(s: SheetState, at: Pos, text: string)
    requires ValidState(s) && at.row >= 1 && at.col >= 1
    ensures ValidState(SetCell(s, at, text))
  {
    var t := SetCell(s, at, text);
    assert at in t.cells;
    if s.dimension.Some? {
      var f :| f in s.cells && f.col == s.dimension.value.first;
      var l :| l in s.cells && l.col == s.dimension.value.last;
      assert f in t.cells && l in t.cells;
    }
  }

  /** A validation worksheet: its name, the values of its cells and its used columns. */
  class Worksheet {
    const name: string
    var cells: map<Pos, string>
    var dimension: Option<ColumnSpan>

    function State(): SheetState
      reads this
    {
      SheetState(cells, dimension)
    }

    ghost predicate Valid()
      reads this
    {
      ValidState(State())
    }

    constructor (name: string)
      ensures Valid()
      ensures this.name == name && State() == SheetState(map[], None)
    {
      this.name := name;
      cells := map[];
      dimension := None;
    }

    /**
     * `Cell(row, col).SetText(text)`: the cell's `Value` becomes `text`, and
     * the used range grows to cover it (`SetCellKeepsValid`).
     */
    method SetText(row: int, col: int, text: string)
      requires row >= 1 && col >= 1
      modifies this
      ensures State() == SetCell(old(State()), Pos(row, col), text)
    {
      cells := cells[Pos(row, col) := text];
      dimension := Some(Extend(dimension, col));
    }
  }

  /** The caller's `List<string>` of allowed values, which `AddValidationList` may change. */
  class TextList {
    var items: seq<string>

    constructor (items: seq<string>)
      ensures this.items == items
    {
      this.items := items;
    }

    /** `List.Insert(index, item)`. */
    method Insert(index: int, item: string)
      requires 0 <= index <= |items|
      modifies this
      ensures items == old(items[..index]) + [item] + old(items[index..])
    {
      items := items[..index] + [item] + items[index..];
    }
  }

  // ---------------------------------------------------------------------------
  // Layouts: which cells receive which text
  // ---------------------------------------------------------------------------

  /** The sheet after `texts` is written down column `col`, one per row, from `firstRow` on. */
  function FillColumn(s: SheetState, texts: seq<string>, col: int, firstRow: int): SheetState
  {
    if texts == [] then s
    else
      var n := |texts| - 1;
      SetCell(FillColumn(s, texts[..n], col, firstRow), Pos(firstRow + n, col), texts[n])
  }

  /** The value of the cell at `p`, if it has one. */
  function At(cells: map<Pos, string>, p: Pos): Option<string> {
    if p in cells then Some(cells[p]) else None
  }

  /**
   * Writing a column: row `firstRow + i` of column `col` holds `texts[i]`,
   * and every other cell keeps what it held.
   */
  lemma {:induction false} FillColumnPlace(s: SheetState, texts: seq<string>, col: int, firstRow: int, p: Pos)
    ensures At(FillColumn(s, texts, col, firstRow).cells, p)
            == if p.col == col && firstRow <= p.row < firstRow + |texts| then Some(texts[p.row - firstRow])
               else At(s.cells, p)
    decreases |texts|
  {
    if texts != [] {
      FillColumnPlace(s, texts[..|texts| - 1], col, firstRow, p);
    }
  }

  /** Writing a column from a positive row of a positive column keeps the sheet invariant. */
  lemma {:induction false} FillColumnKeepsValid(s: SheetState, texts: seq<string>, col: int, firstRow: int)
    requires ValidState(s) && col >= 1 && firstRow >= 1
    ensures ValidState(FillColumn(s, texts, col, firstRow))
    decreases |texts|
  {
    if texts != [] {
      var n := |texts| - 1;
      FillColumnKeepsValid(s, texts[..n], col, firstRow);
      SetCellKeepsValid(FillColumn(s, texts[..n], col, firstRow), Pos(firstRow + n, col), texts[n]);
    }
  }

  /** Writing `texts[n]` at row `firstRow + n` extends the column written so far by one row. */
  lemma FillColumnStep(before: SheetState, mid: SheetState, after: SheetState,
                       texts: seq<string>, col: int, firstRow: int, n: int)
    requires 0 <= n < |texts|
    requires mid == FillColumn(before, texts[..n], col, firstRow)
    requires after == SetCell(mid, Pos(firstRow + n, col), texts[n])
    ensures after == FillColumn(before, texts[..n + 1], col, firstRow)
  {
    assert texts[..n + 1][..n] == texts[..n];
  }

  /** The texts of one principal's column: its name, an optional blank choice, then its dependents. */
  function EntryColumn(e: Entry, allowEmptyValue: bool): (texts: seq<string>)
    ensures |texts| == 1 + (if allowEmptyValue then 1 else 0) + |e.dependents|
    ensures texts[0] == e.principal
  {
    [e.principal] + (if allowEmptyValue then [" "] else []) + e.dependents
  }

  /** The dependents follow the header rows of their column. */
  lemma EntryColumnDependent(e: Entry, allowEmptyValue: bool, j: int)
    requires 0 <= j < |e.dependents|
    ensures EntryColumn(e, allowEmptyValue)[(if allowEmptyValue then 2 else 1) + j] == e.dependents[j]
  {
  }

  /**
   * The sheet after the loops of `AddValidationDependentList`: entry `k`
   * fills column `firstCol + k` from row 1 down, one entry after another.
   */
  function FillColumns(s: SheetState, entries: seq<Entry>, firstCol: int, allowEmptyValue: bool): SheetState
  {
    if entries == [] then s
    else
      var n := |entries| - 1;
      FillColumn(FillColumns(s, entries[..n], firstCol, allowEmptyValue),
                 EntryColumn(entries[n], allowEmptyValue), firstCol + n, 1)
  }

  /** Filling column `k` after the first `k` extends the layout of the first `k` to the first `k + 1`. */
  lemma FillColumnsStep(start: SheetState, mid: SheetState, after: SheetState,
                        entries: seq<Entry>, k: int, firstCol: int, allowEmptyValue: bool)
    requires 0 <= k < |entries|
    requires mid == FillColumns(start, entries[..k], firstCol, allowEmptyValue)
    requires after == FillColumn(mid, EntryColumn(entries[k], allowEmptyValue), firstCol + k, 1)
    ensures after == FillColumns(start, entries[..k + 1], firstCol, allowEmptyValue)
  {
    assert entries[..k + 1][..k] == entries[..k];
  }

  /** Filling columns from a positive column on keeps the sheet invariant. */
  lemma {:induction false} FillColumnsKeepsValid(s: SheetState, entries: seq<Entry>, firstCol: int,
                                                 allowEmptyValue: bool)
    requires ValidState(s) && firstCol >= 1
    ensures ValidState(FillColumns(s, entries, firstCol, allowEmptyValue))
    decreases |entries|
  {
    if entries != [] {
      var n := |entries| - 1;
      var texts := EntryColumn(entries[n], allowEmptyValue);
      FillColumnsKeepsValid(s, entries[..n], firstCol, allowEmptyValue);
      FillColumnKeepsValid(FillColumns(s, entries[..n], firstCol, allowEmptyValue), texts, firstCol + n, 1);
    }
  }

  /** Whether `p` is one of the cells the dependent-list layout writes. */
  predicate InDependentLayout(entries: seq<Entry>, firstCol: int, allowEmptyValue: bool, p: Pos) {
    && firstCol <= p.col < firstCol + |entries|
    && 1 <= p.row <= |EntryColumn(entries[p.col - firstCol], allowEmptyValue)|
  }

  /**
   * The dependent-list layout: column `firstCol + k` holds entry `k`'s column
   * texts from row 1 down; every cell outside those runs keeps what it held.
   */
  lemma DependentLayoutPlace(s: SheetState, entries: seq<Entry>, firstCol: int, allowEmptyValue: bool, p: Pos)
    ensures At(FillColumns(s, entries, firstCol, allowEmptyValue).cells, p)
            == if InDependentLayout(entries, firstCol, allowEmptyValue, p)
               then Some(EntryColumn(entries[p.col - firstCol], allowEmptyValue)[p.row - 1])
               else At(s.cells, p)
  {
    if InDependentLayout(entries, firstCol, allowEmptyValue, p) {
      DependentLayoutCell(s, entries, firstCol, allowEmptyValue, p.col - firstCol, p.row);
    } else {
      DependentLayoutOutside(s, entries, firstCol, allowEmptyValue, p);
    }
  }

  /** Row `row` of entry `k`'s column holds that row of the entry's column texts. */
  lemma {:induction false} DependentLayoutCell(s: SheetState, entries: seq<Entry>, firstCol: int,
                                               allowEmptyValue: bool, k: int, row: int)
    requires 0 <= k < |entries| && 1 <= row <= |EntryColumn(entries[k], allowEmptyValue)|
    ensures At(FillColumns(s, entries, firstCol, allowEmptyValue).cells, Pos(row, firstCol + k))
            == Some(EntryColumn(entries[k], allowEmptyValue)[row - 1])
    decreases |entries|
  {
    var n := |entries| - 1;
    var earlier := FillColumns(s, entries[..n], firstCol, allowEmptyValue);
    FillColumnPlace(earlier, EntryColumn(entries[n], allowEmptyValue), firstCol + n, 1, Pos(row, firstCol + k));
    if k < n {
      assert entries[..n][k] == entries[k];
      DependentLayoutCell(s, entries[..n], firstCol, allowEmptyValue, k, row);
    }
  }

  /** A cell the layout does not write keeps what it held. */
  lemma {:induction false} DependentLayoutOutside(s: SheetState, entries: seq<Entry>, firstCol: int,
                                                  allowEmptyValue: bool, p: Pos)
    requires !InDependentLayout(entries, firstCol, allowEmptyValue, p)
    ensures At(FillColumns(s, entries, firstCol, allowEmptyValue).cells, p) == At(s.cells, p)
    decreases |entries|
  {
    if entries != [] {
      var n := |entries| - 1;
      var earlier := FillColumns(s, entries[..n], firstCol, allowEmptyValue);
      FillColumnPlace(earlier, EntryColumn(entries[n], allowEmptyValue), firstCol + n, 1, p);
      if firstCol <= p.col < firstCol + n {
        assert entries[..n][p.col - firstCol] == entries[p.col - firstCol];
      }
      DependentLayoutOutside(s, entries[..n], firstCol, allowEmptyValue, p);
    }
  }

  /**
   * Read column by column: row 1 holds the principal, row 2 the blank choice
   * when allowed, and the dependents follow contiguously below.
   */
  lemma DependentColumnShape(s: SheetState, entries: seq<Entry>, firstCol: int,
                             allowEmptyValue: bool, k: int, j: int)
    requires 0 <= k < |entries| && 0 <= j < |entries[k].dependents|
    ensures var after := FillColumns(s, entries, firstCol, allowEmptyValue).cells;
            var header := if allowEmptyValue then 2 else 1;
            && At(after, Pos(1, firstCol + k)) == Some(entries[k].principal)
            && (allowEmptyValue ==> At(after, Pos(2, firstCol + k)) == Some(" "))
            && At(after, Pos(header + 1 + j, firstCol + k)) == Some(entries[k].dependents[j])
  {
    var header := if allowEmptyValue then 2 else 1;
    var texts := EntryColumn(entries[k], allowEmptyValue);
    DependentLayoutCell(s, entries, firstCol, allowEmptyValue, k, 1);
    if allowEmptyValue {
      DependentLayoutCell(s, entries, firstCol, allowEmptyValue, k, 2);
    }
    DependentLayoutCell(s, entries, firstCol, allowEmptyValue, k, header + 1 + j);
    assert texts[header + j] == entries[k].dependents[j];
  }

  /** Cells outside the columns the layout touches are left as they were. */
  lemma DependentLayoutKeepsOtherColumns(s: SheetState, entries: seq<Entry>, firstCol: int,
                                         allowEmptyValue: bool, p: Pos)
    requires p.col < firstCol || p.col >= firstCol + |entries|
    ensures At(FillColumns(s, entries, firstCol, allowEmptyValue).cells, p) == At(s.cells, p)
  {
    DependentLayoutOutside(s, entries, firstCol, allowEmptyValue, p);
  }

  /**
   * On a sheet whose used range starts in column A, the list goes to a column
   * no value occupies, so every value already there survives.
   */
  lemma ListKeepsExistingCells(s: SheetState, items: seq<string>, p: Pos)
    requires ValidState(s) && (s.dimension.None? || s.dimension.value.first == 1)
    requires p in s.cells
    ensures At(FillColumn(s, items, NextColumn(s.dimension), 1).cells, p) == Some(s.cells[p])
  {
    NextColumnIsFree(s.cells, s.dimension);
    FillColumnPlace(s, items, NextColumn(s.dimension), 1, p);
  }

  /** The same holds for the dependent-list layout. */
  lemma DependentListKeepsExistingCells(s: SheetState, entries: seq<Entry>, allowEmptyValue: bool, p: Pos)
    requires ValidState(s) && (s.dimension.None? || s.dimension.value.first == 1)
    requires p in s.cells
    ensures At(FillColumns(s, entries, NextColumn(s.dimension), allowEmptyValue).cells, p)
            == Some(s.cells[p])
  {
    NextColumnIsFree(s.cells, s.dimension);
    DependentLayoutKeepsOtherColumns(s, entries, NextColumn(s.dimension), allowEmptyValue, p);
  }

  // ---------------------------------------------------------------------------
  // The two extension methods
  // ---------------------------------------------------------------------------

  /** The values `AddValidationList` lists: a leading " " when the empty choice is allowed. */
  function ListValues(values: seq<string>, allowEmptyValue: bool): seq<string>
  {
    if allowEmptyValue then [" "] + values else values
  }

  /**
   * `AddValidationList(cell, values, validationSheet, allowEmptyValue,
   * errorMessage)`. An empty list changes nothing and adds no rule. Otherwise
   * " " is inserted at the front of the caller's list when the empty choice is
   * allowed, `values[i]` goes to row i + 1 of the next column, and the rule
   * returned lists rows 1..Count of that column.
   */
  method AddValidationList(values: TextList, validationSheet: Worksheet, allowEmptyValue: bool,
                           errorMessage: Option<string>)
    returns (rule: Option<ListRule>)
    requires validationSheet.Valid()
    modifies values, validationSheet
    ensures validationSheet.Valid()
    ensures old(values.items) == [] ==>
              rule.None? && values.items == [] && validationSheet.State() == old(validationSheet.State())
    ensures old(values.items) != [] ==>
              var column := NextColumn(old(validationSheet.dimension));
              && values.items == ListValues(old(values.items), allowEmptyValue)
              && validationSheet.State() == FillColumn(old(validationSheet.State()), values.items, column, 1)
              && rule == Some(ListRule(RangeAddress(validationSheet.name, 1, column, |values.items|, column),
                                       true, errorMessage.GetOr(InvalidValue)))
  {
    if |values.items| == 0 {
      return None;
    }

    if allowEmptyValue {
      values.Insert(0, " ");
    }

    var column := NextColumn(validationSheet.dimension);
    ghost var before := validationSheet.State();
    var items := values.items;
    for row := 0 to |items|
      invariant values.items == items
      invariant validationSheet.State() == FillColumn(before, items[..row], column, 1)
    {
      ghost var mid := validationSheet.State();
      validationSheet.SetText(row + 1, column, items[row]);
      FillColumnStep(before, mid, validationSheet.State(), items, column, 1, row);
    }
    assert items[..|items|] == items;
    FillColumnKeepsValid(before, items, column, 1);

    rule := Some(ListRule(RangeAddress(validationSheet.name, 1, column, |values.items|, column),
                          true, errorMessage.GetOr(InvalidValue)));
  }

  /**
   * One pass of the outer loop of `AddValidationDependentList`: starting at
   * row 1 of `columnIndex`, the principal name, then " " when the empty choice
   * is allowed, then each dependent name, one row further each time.
   */
  method FillPrincipalColumn(validationSheet: Worksheet, entry: Entry, columnIndex: int, allowEmptyValue: bool)
    requires columnIndex >= 1
    modifies validationSheet
    ensures validationSheet.State()
            == FillColumn(old(validationSheet.State()), EntryColumn(entry, allowEmptyValue), columnIndex, 1)
  {
    ghost var texts := EntryColumn(entry, allowEmptyValue);
    ghost var before := validationSheet.State();
    var rowIndex := 1;
    assert texts[..0] == [];

    ghost var mid := validationSheet.State();
    validationSheet.SetText(rowIndex, columnIndex, entry.principal);
    FillColumnStep(before, mid, validationSheet.State(), texts, columnIndex, 1, 0);
    rowIndex := rowIndex + 1;

    if allowEmptyValue {
      mid := validationSheet.State();
      validationSheet.SetText(rowIndex, columnIndex, " ");
      FillColumnStep(before, mid, validationSheet.State(), texts, columnIndex, 1, 1);
      rowIndex := rowIndex + 1;
    }

    ghost var header := rowIndex - 1;
    for j := 0 to |entry.dependents|
      invariant rowIndex == header + 1 + j
      invariant validationSheet.State() == FillColumn(before, texts[..rowIndex - 1], columnIndex, 1)
    {
      EntryColumnDependent(entry, allowEmptyValue, j);
      mid := validationSheet.State();
      validationSheet.SetText(rowIndex, columnIndex, entry.dependents[j]);
      FillColumnStep(before, mid, validationSheet.State(), texts, columnIndex, 1, rowIndex - 1);
      rowIndex := rowIndex + 1;
    }
    assert texts[..rowIndex - 1] == texts;
  }

  /**
   * The outer loop of `AddValidationDependentList`: one column per entry, from
   * `startColumnIndex` rightwards; returns the column after the last one filled.
   */
  method FillPrincipalColumns(validationSheet: Worksheet, values: seq<Entry>, startColumnIndex: int,
                              allowEmptyValue: bool)
    returns (columnIndex: int)
    requires startColumnIndex >= 1
    modifies validationSheet
    ensures columnIndex == startColumnIndex + |values|
    ensures validationSheet.State()
            == FillColumns(old(validationSheet.State()), values, startColumnIndex, allowEmptyValue)
  {
    columnIndex := startColumnIndex;
    ghost var start := validationSheet.State();

    for k := 0 to |values|
      invariant columnIndex == startColumnIndex + k
      invariant validationSheet.State()
                == FillColumns(start, values[..k], startColumnIndex, allowEmptyValue)
    {
      ghost var mid := validationSheet.State();
      FillPrincipalColumn(validationSheet, values[k], columnIndex, allowEmptyValue);
      FillColumnsStep(start, mid, validationSheet.State(), values, k, startColumnIndex, allowEmptyValue);
      columnIndex := columnIndex + 1;
    }
    assert values[..|values|] == values;
  }

  /**
   * `AddValidationDependentList(targetRange, dependentRange, principalColumnIndex,
   * dependentColumnIndex, validationSheet, values, allowEmptyValue, errorMessage)`.
   * No entries: nothing changes and no rule is added. Otherwise entry `k`
   * fills the `k`-th column from the next free one (see `DependentLayoutPlace`),
   * the principal rule lists row 1 across those columns, and the dependent rule
   * offsets from the first principal cell.
   */
  method AddValidationDependentList(principalColumnIndex: int, dependentColumnIndex: int,
                                    validationSheet: Worksheet, values: seq<Entry>,
                                    allowEmptyValue: bool, errorMessage: Option<string>)
    returns (principalRule: Option<ListRule>, dependentRule: Option<DependentRule>)
    requires validationSheet.Valid()
    modifies validationSheet
    ensures validationSheet.Valid()
    ensures values == [] ==>
              principalRule.None? && dependentRule.None? && validationSheet.State() == old(validationSheet.State())
    ensures values != [] ==>
              var first := NextColumn(old(validationSheet.dimension));
              var name := validationSheet.name;
              var principals := RangeAddress(name, 1, first, 1, first + |values| - 1);
              && validationSheet.State()
                 == FillColumns(old(validationSheet.State()), values, first, allowEmptyValue)
              && principalRule == Some(ListRule(principals, true, errorMessage.GetOr(InvalidValue)))
              && dependentRule == Some(DependentRule(RangeAddress(name, 1, first, 1, first), principals,
                                                     principalColumnIndex - dependentColumnIndex,
                                                     true, errorMessage.GetOr(InvalidValue)))
  {
    if |values| == 0 {
      return None, None;
    }

    var startColumnIndex := NextColumn(validationSheet.dimension);
    ghost var before := validationSheet.State();
    var columnIndex := FillPrincipalColumns(validationSheet, values, startColumnIndex, allowEmptyValue);
    FillColumnsKeepsValid(before, values, startColumnIndex, allowEmptyValue);

    var startAddress := RangeAddress(validationSheet.name, 1, startColumnIndex, 1, startColumnIndex);
    var fullAddress := RangeAddress(validationSheet.name, 1, startColumnIndex, 1, columnIndex - 1);
    principalRule := Some(ListRule(fullAddress, true, errorMessage.GetOr(InvalidValue)));
    dependentRule := Some(DependentRule(startAddress, fullAddress, principalColumnIndex - dependentColumnIndex,
                                        true, errorMessage.GetOr(InvalidValue)));
  }
}
