/**
 * The editor's in-memory copy of the loaded file, `csv_data`: a list of rows whose row 0 is the
 * header. Rows come from a CSV reader and may have different lengths. The three column edits of
 * the window change it in place; the functions here say what they leave behind.
 */
module CsvData {
  import opened Wrappers

  type Row = seq<string>

  /**
   * Python's `row.insert(c, x)` for `c >= 0`: `x` lands at `c`, or at the end when `c` is past
   * it; the cells before it stay and the rest move right by one.
   */
  function InsertAt(row: Row, c: nat, x: string): (r: Row)
    ensures |r| == |row| + 1
    ensures var k := Min(c, |row|); r[k] == x && r[..k] == row[..k] && r[k + 1..] == row[k..]
  {
    if c <= |row| then row[..c] + [x] + row[c..] else row + [x]
  }

  /** Python's `del row[c]` for an index that exists: the cells after `c` move left by one. */
  function RemoveAt(row: Row, c: nat): (r: Row)
    requires c < |row|
    ensures |r| == |row| - 1
    ensures r[..c] == row[..c] && r[c..] == row[c + 1..]
  {
    row[..c] + row[c + 1..]
  }

  /** `csv_data` after `add_column(name)`: the header gains `name`, every data row an empty cell. */
  function AddedColumn(rows: seq<Row>, name: string): (r: seq<Row>)
    requires rows != []
    ensures |r| == |rows|
  {
    seq(|rows|, i requires 0 <= i < |rows| => rows[i] + [if i == 0 then name else ""])
  }

  /** `csv_data` after `insert_column_before` at column `c` with the name `name`. */
  function InsertedColumn(rows: seq<Row>, c: nat, name: string): (r: seq<Row>)
    requires rows != []
    ensures |r| == |rows|
  {
    seq(|rows|, i requires 0 <= i < |rows| => InsertAt(rows[i], c, if i == 0 then name else ""))
  }

  /**
   * The index of the first row that has no cell `c`, or `|rows|` when every row has one:
   * `del rows[i][c]` raises `IndexError` exactly at that row.
   */
  function FirstShortRow(rows: seq<Row>, c: nat): (k: nat)
    ensures k <= |rows|
    ensures forall i :: 0 <= i < k ==> c < |rows[i]|
    ensures k < |rows| ==> |rows[k]| <= c
  {
    if rows == [] then 0
    else if |rows[0]| <= c then 0
    else 1 + FirstShortRow(rows[1..], c)
  }

  /** The rows with cell `c` deleted from the first `k` of them and the others left as they are. */
  function DeletedColumn(rows: seq<Row>, c: nat, k: nat): (r: seq<Row>)
    requires k <= |rows|
    requires forall i :: 0 <= i < k ==> c < |rows[i]|
    ensures |r| == |rows|
  {
    seq(|rows|, i requires 0 <= i < |rows| => if i < k then RemoveAt(rows[i], c) else rows[i])
  }

  /** Every row has the same number of cells as the header. */
  predicate Rectangular(rows: seq<Row>) {
    rows != [] && forall i :: 0 <= i < |rows| ==> |rows[i]| == |rows[0]|
  }

  /**
   * `add_column`: the header ends with the new name, every data row ends with an empty cell, every
   * row grows by exactly one cell and the cells that were there keep their places.
   */
  lemma AddedColumnFacts(rows: seq<Row>, name: string)
    requires rows != []
    ensures var r := AddedColumn(rows, name);
      && |r| == |rows|
      && r[0][|r[0]| - 1] == name
      && (forall i :: 1 <= i < |rows| ==> r[i][|r[i]| - 1] == "")
      && (forall i :: 0 <= i < |rows| ==> |r[i]| == |rows[i]| + 1 && r[i][..|rows[i]|] == rows[i])
  {
  }

  /**
   * `insert_column_before` at a column every row has (or ends at): the header holds the name at
   * `c`, every data row holds `""` there, the cells before `c` stay and the rest move right by one.
   */
  lemma InsertedColumnFacts(rows: seq<Row>, c: nat, name: string)
    requires rows != []
    requires forall i :: 0 <= i < |rows| ==> c <= |rows[i]|
    ensures var r := InsertedColumn(rows, c, name);
      && |r| == |rows|
      && r[0][c] == name
      && (forall i :: 1 <= i < |rows| ==> r[i][c] == "")
      && (forall i, j :: 0 <= i < |rows| && 0 <= j < c ==> r[i][j] == rows[i][j])
      && (forall i, j :: 0 <= i < |rows| && c <= j < |rows[i]| ==> r[i][j + 1] == rows[i][j])
  {
  }

  /** A row shorter than `c` gets the new cell at its end, as Python's `list.insert` does. */
  lemma InsertedColumnClamps(rows: seq<Row>, c: nat, name: string, i: nat)
    requires rows != [] && i < |rows| && |rows[i]| < c
    ensures InsertedColumn(rows, c, name)[i] == rows[i] + [if i == 0 then name else ""]
  {
  }

  /**
   * A completed `delete_column`: every row has lost exactly its cell `c` and the remaining cells
   * keep their order.
   */
  lemma DeletedColumnFacts(rows: seq<Row>, c: nat)
    requires FirstShortRow(rows, c) == |rows|
    ensures var r := DeletedColumn(rows, c, |rows|);
      && |r| == |rows|
      && (forall i :: 0 <= i < |rows| ==> |r[i]| == |rows[i]| - 1)
      && (forall i, j :: 0 <= i < |rows| && 0 <= j < c ==> r[i][j] == rows[i][j])
      && (forall i, j :: 0 <= i < |rows| && c <= j < |r[i]| ==> r[i][j] == rows[i][j + 1])
  {
    var r := DeletedColumn(rows, c, |rows|);
    forall i | 0 <= i < |rows|
      ensures |r[i]| == |rows[i]| - 1
      ensures forall j :: 0 <= j < c ==> r[i][j] == rows[i][j]
      ensures forall j :: c <= j < |r[i]| ==> r[i][j] == rows[i][j + 1]
    {
      assert r[i] == rows[i][..c] + rows[i][c + 1..];
    }
  }

  /** Inserting a column at `c` and then deleting column `c` gives back the original rows. */
  lemma DeleteUndoesInsert(rows: seq<Row>, c: nat, name: string)
    requires rows != []
    requires forall i :: 0 <= i < |rows| ==> c <= |rows[i]|
    ensures var r := InsertedColumn(rows, c, name);
      FirstShortRow(r, c) == |r| && DeletedColumn(r, c, |r|) == rows
  {
    var r := InsertedColumn(rows, c, name);
    forall i | 0 <= i < |rows| ensures RemoveAt(r[i], c) == rows[i] {
      assert r[i] == rows[i][..c] + [if i == 0 then name else ""] + rows[i][c..];
    }
  }

  /** On a rectangular table, deleting the column `add_column` appended gives back the original. */
  lemma DeleteUndoesAdd(rows: seq<Row>, name: string)
    requires Rectangular(rows)
    ensures var r := AddedColumn(rows, name);
      FirstShortRow(r, |rows[0]|) == |r| && DeletedColumn(r, |rows[0]|, |r|) == rows
  {
    var r := AddedColumn(rows, name);
    forall i | 0 <= i < |rows| ensures RemoveAt(r[i], |rows[0]|) == rows[i] {
      assert r[i][..|rows[0]|] == rows[i];
    }
  }

  /** The CSV data of the open file, updated in place by the column edits. */
  class Document {
    var rows: seq<Row>

    constructor (loaded: seq<Row>)
      ensures rows == loaded
    {
      rows := loaded;
    }

    /**
     * `add_column`. With no file open (`fileOpen` is false) it only shows a warning; otherwise
     * the name dialog is shown. An empty name (or a cancelled dialog, which also
     * yields no name) changes nothing. With no rows at all (a file is open but `csv_data` is
     * empty, as after opening an empty file), `csv_data[0]` raises `IndexError` out of the slot
     * before `csv_data` is changed: `raised` is then true.
     */
    method AddColumn(fileOpen: bool, name: string) returns (raised: bool)
      modifies this
      ensures raised <==> fileOpen && name != "" && old(rows) == []
      ensures rows == if !fileOpen || name == "" || old(rows) == [] then old(rows) else AddedColumn(old(rows), name)
    {
      raised := false;
      if !fileOpen || name == "" {
        return;
      }
      if rows == [] {
        raised := true;
        return;
      }
      ghost var before := rows;
      rows := rows[0 := rows[0] + [name]];
      var i := 1;
      while i < |rows|
        invariant 1 <= i <= |rows| == |before|
        invariant forall j :: 0 <= j < i ==> rows[j] == AddedColumn(before, name)[j]
        invariant forall j :: i <= j < |rows| ==> rows[j] == before[j]
      {
        rows := rows[i := rows[i] + [""]];
        i := i + 1;
      }
    }

    /**
     * `insert_column_before` with the table's current column `c` (-1 when no column is selected,
     * which only shows a warning) and the name from the dialog. With no file open it only shows
     * a warning. With no rows at all,
     * `csv_data[0]` raises `IndexError` before `csv_data` is changed.
     */
    method InsertColumnBefore(fileOpen: bool, c: int, name: string) returns (raised: bool)
      modifies this
      ensures raised <==> fileOpen && c >= 0 && name != "" && old(rows) == []
      ensures rows == if !fileOpen || c < 0 || name == "" || old(rows) == [] then old(rows) else InsertedColumn(old(rows), c, name)
    {
      raised := false;
      if !fileOpen || c < 0 || name == "" {
        return;
      }
      if rows == [] {
        raised := true;
        return;
      }
      ghost var before := rows;
      rows := rows[0 := InsertAt(rows[0], c, name)];
      var i := 1;
      while i < |rows|
        invariant 1 <= i <= |rows| == |before|
        invariant forall j :: 0 <= j < i ==> rows[j] == InsertedColumn(before, c, name)[j]
        invariant forall j :: i <= j < |rows| ==> rows[j] == before[j]
      {
        rows := rows[i := InsertAt(rows[i], c, "")];
        i := i + 1;
      }
    }

    /**
     * `delete_column` at the table's current column `c`. With no file open, with no column
     * selected, or when the user answers No to the confirmation (`confirmed` is false), nothing
     * changes. Otherwise `raised` is
     * true when `del` hit a row without cell `c` and raised `IndexError`; the rows before that one
     * have already lost their cell `c` by then, and the later ones are untouched. With no rows at
     * all, `csv_data[0]` raises at once and `csv_data` stays as it was.
     */
    method DeleteColumn(fileOpen: bool, c: int, confirmed: bool) returns (raised: bool)
      modifies this
      ensures !fileOpen || c < 0 || !confirmed ==> !raised && rows == old(rows)
      ensures fileOpen && c >= 0 && confirmed ==>
        var k := FirstShortRow(old(rows), c);
        raised == (old(rows) == [] || k < |old(rows)|) && rows == DeletedColumn(old(rows), c, k)
    {
      raised := false;
      if !fileOpen || c < 0 || !confirmed {
        return;
      }
      if rows == [] {
        raised := true;
        return;
      }
      ghost var before := rows;
      ghost var k := FirstShortRow(before, c);
      if |rows[0]| <= c {
        raised := true;
        return;
      }
      rows := rows[0 := RemoveAt(rows[0], c)];
      var i := 1;
      while i < |rows|
        invariant 1 <= i <= |rows| == |before|
        invariant i <= k
        invariant forall j :: 0 <= j < i ==> rows[j] == DeletedColumn(before, c, k)[j]
        invariant forall j :: i <= j < |rows| ==> rows[j] == before[j]
      {
        if |rows[i]| <= c {
          raised := true;
          return;
        }
        rows := rows[i := RemoveAt(rows[i], c)];
        i := i + 1;
      }
    }
  }
}
