/**
 * What `display_csv_data` leaves in the table widget, and what `save_file` then writes back.
 *
 * `display_csv_data` sizes the table with one row per CSV row, header included, but fills rows
 * only from the data rows (CSV row `1 + r` goes to table row `r`). The last table row is never
 * written: it is empty after loading into a fresh window and keeps whatever item the previous file
 * left there otherwise. Saving then writes one row more than was loaded. The functions here take
 * the number of table rows as a parameter so that both the code as written and the evidently
 * intended row count can be stated.
 */
module LoadSave {
  import opened Wrappers
  import opened Grid
  import CsvData

  /** The row count `display_csv_data` sets: `len(self.csv_data)`. */
  function WrittenRowCount(data: seq<seq<string>>): nat {
    |data|
  }

  /** The row count that matches the rows it fills: the data rows, without the header. */
  function CorrectedRowCount(data: seq<seq<string>>): nat {
    if data == [] then 0 else |data| - 1
  }

  /**
   * The item at `p` after `display_csv_data` with `rows` table rows, from a table that held
   * `before`. Positions outside the new size lose their item (`setRowCount`/`setColumnCount`
   * discard them); a position a data row reaches gets that row's cell; any other position keeps
   * what it held. A row longer than the header does not widen the table: the widget ignores
   * items set outside it.
   */
  function DisplayedItem(before: map<Position, string>, data: seq<seq<string>>, rows: nat, p: Position): (r: Option<string>)
    requires data != []
    ensures r.Some? ==> InRange(rows, |data[0]|, p)
    ensures InRange(rows, |data[0]|, p) && p.row + 1 < |data| && p.col < |data[p.row + 1]| ==> r == Some(data[p.row + 1][p.col])
  {
    PartlyDisplayed(before, data, rows, |data|, p)
  }

  /** The same while `display_csv_data` has written only the CSV rows before `filled`. */
  function PartlyDisplayed(before: map<Position, string>, data: seq<seq<string>>, rows: nat, filled: nat, p: Position): (r: Option<string>)
    requires data != [] && filled <= |data|
    ensures r.Some? ==> InRange(rows, |data[0]|, p)
  {
    if !InRange(rows, |data[0]|, p) then None
    else if p.row + 1 < filled && p.col < |data[p.row + 1]| then Some(data[p.row + 1][p.col])
    else Item(before, p)
  }

  /** `t` is the table `display_csv_data` leaves with `rows` table rows, starting from the items `before`. */
  ghost predicate DisplayedTable(t: Table, before: map<Position, string>, data: seq<seq<string>>, rows: nat)
    requires data != []
  {
    && t.rowCount == rows && t.columnCount == |data[0]|
    && forall p :: Item(t.items, p) == DisplayedItem(before, data, rows, p)
  }

  /**
   * As written: loading a rectangular CSV into a fresh window and saving it writes the file back
   * with one extra row of empty cells at the end.
   */
  lemma SaveAfterLoadAsWritten(data: seq<seq<string>>, t: Table)
    requires CsvData.Rectangular(data)
    requires DisplayedTable(t, map[], data, WrittenRowCount(data))
    ensures SavedRows(data[0], t) == data + [seq(|data[0]|, _ => "")]
  {
    var saved := SavedRows(data[0], t);
    var expected := data + [seq(|data[0]|, _ => "")];
    forall i | 1 <= i < |saved| ensures saved[i] == expected[i] {
      forall c | 0 <= c < |data[0]| ensures saved[i][c] == expected[i][c] {
        assert Item(t.items, Position(i - 1, c)) == DisplayedItem(map[], data, |data|, Position(i - 1, c));
      }
    }
  }

  /** The smallest file that shows it: a header and one data row come back with a blank third row. */
  lemma OneRowFileGrowsAsWritten(t: Table)
    requires DisplayedTable(t, map[], [["name"], ["a"]], 2)
    ensures SavedRows(["name"], t) == [["name"], ["a"], [""]]
  {
    SaveAfterLoadAsWritten([["name"], ["a"]], t);
    assert seq(1, _ => "") == [""];
  }

  /**
   * Corrected: with one table row per data row, saving a loaded rectangular CSV writes exactly
   * the rows that were loaded, whatever the table held before.
   */
  lemma SaveAfterLoadCorrected(data: seq<seq<string>>, before: map<Position, string>, t: Table)
    requires CsvData.Rectangular(data)
    requires DisplayedTable(t, before, data, CorrectedRowCount(data))
    ensures SavedRows(data[0], t) == data
  {
    var saved := SavedRows(data[0], t);
    forall i | 1 <= i < |saved| ensures saved[i] == data[i] {
      forall c | 0 <= c < |data[0]| ensures saved[i][c] == data[i][c] {
        assert Item(t.items, Position(i - 1, c)) == DisplayedItem(before, data, |data| - 1, Position(i - 1, c));
      }
    }
  }
}
