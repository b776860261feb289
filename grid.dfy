/**
 * The window's table widget: a number of rows and columns, and the items it holds, keyed by
 * position. A position inside the table may hold no item at all (`table.item(row, col)` returns
 * None there), which is what happens to cells a short CSV row never filled.
 */
module Grid {
  import opened Wrappers

  /** A cell position, as `(row, column)` indices into the table. */
  datatype Position = Position(row: nat, col: nat)

  /** A snapshot of the table widget: `rowCount()`, `columnCount()` and the items with their texts. */
  datatype Table = Table(rowCount: nat, columnCount: nat, items: map<Position, string>)

  predicate InRange(rowCount: nat, columnCount: nat, p: Position) {
    p.row < rowCount && p.col < columnCount
  }

  /** Items only ever sit inside the table. */
  predicate Valid(t: Table) {
    forall p :: p in t.items ==> InRange(t.rowCount, t.columnCount, p)
  }

  /** `table.item(row, col)`: the item's text, or None where there is no item. */
  function Item(items: map<Position, string>, p: Position): (r: Option<string>)
    ensures r.Some? <==> p in items
  {
    if p in items then Some(items[p]) else None
  }

  /** `item.text() if item else ""`: the text `save_file` writes for a position. */
  function CellText(items: map<Position, string>, p: Position): (r: string)
    ensures p in items ==> r == items[p]
    ensures p !in items ==> r == ""
  {
    Item(items, p).GetOr("")
  }

  /** One row as `save_file` writes it: the texts of the first `columns` positions of table row `row`. */
  function SavedRow(items: map<Position, string>, columns: nat, row: nat): (r: seq<string>)
    ensures |r| == columns
    ensures forall col :: 0 <= col < columns ==> r[col] == CellText(items, Position(row, col))
  {
    seq(columns, col requires 0 <= col => CellText(items, Position(row, col)))
  }

  /**
   * What `save_file` assembles: the given header, then one row per table row with one text per
   * table column, missing items written as `""`.
   */
  function SavedRows(header: seq<string>, t: Table): (r: seq<seq<string>>)
    ensures |r| == t.rowCount + 1 && r[0] == header
    ensures forall i :: 1 <= i < |r| ==> |r[i]| == t.columnCount
    ensures forall i, col :: 1 <= i < |r| && 0 <= col < t.columnCount ==> r[i][col] == CellText(t.items, Position(i - 1, col))
  {
    [header] + seq(t.rowCount, row requires 0 <= row => SavedRow(t.items, t.columnCount, row))
  }

  /** Replacing item texts without adding or removing items keeps a table valid. */
  lemma KeptKeysValid(t: Table, items: map<Position, string>)
    requires Valid(t) && items.Keys == t.items.Keys
    ensures Valid(Table(t.rowCount, t.columnCount, items))
  {
    forall p | p in items ensures InRange(t.rowCount, t.columnCount, p) {
      assert p in t.items;
    }
  }
}
