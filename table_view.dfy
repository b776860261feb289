/**
 * The table widget as the window changes it: loading a CSV into it, translating a column or
 * the selected cells in place, and collecting its contents for `save_file`.
 */
module TableView {
  import opened Wrappers
  import opened Text
  import opened Grid
  import opened Translation
  import opened LoadSave

  /**
   * The entries of the translate dialog's source combo: every column of the table except the
   * target, in column order.
   */
  function SourceColumns(columnCount: nat, target: nat): (r: seq<nat>)
    ensures forall c: nat :: c in r <==> c < columnCount && c != target
    ensures forall i, j :: 0 <= i < j < |r| ==> r[i] < r[j]
  {
    if columnCount == 0 then []
    else
      var earlier := SourceColumns(columnCount - 1, target);
      assert forall i :: 0 <= i < |earlier| ==> earlier[i] in earlier;
      earlier + (if columnCount - 1 == target then [] else [columnCount - 1])
  }

  /** The combo is empty, so `currentData()` is None, exactly when the target is the table's only column. */
  lemma OnlyColumnHasNoSource(columnCount: nat, target: nat)
    requires target < columnCount
    ensures SourceColumns(columnCount, target) == [] <==> columnCount == 1
  {
  }

  class TableView {
    var rowCount: nat
    var columnCount: nat
    var items: map<Position, string>

    function Snapshot(): Table
      reads this
    {
      Table(rowCount, columnCount, items)
    }

    /** Items only sit inside the table. */
    ghost predicate Valid()
      reads this
    {
      Grid.Valid(Snapshot())
    }

    /** The empty table of a fresh window. */
    constructor ()
      ensures Valid() && rowCount == 0 && columnCount == 0 && items == map[]
    {
      rowCount, columnCount, items := 0, 0, map[];
    }

    /** `clear()` followed by zero rows and columns, as `remove_selected_file` does for the open file. */
    method Clear()
      modifies this
      ensures Valid() && rowCount == 0 && columnCount == 0 && items == map[]
    {
      rowCount, columnCount, items := 0, 0, map[];
    }

    /**
     * `display_csv_data` with the row count corrected to the number of data rows (the code sets
     * `len(csv_data)`, see `LoadSave`): `len(csv_data[0])` columns, then CSV row `r` (from 1)
     * written into table row `r - 1`; nothing happens for empty data.
     */
    method DisplayCsvData(csvData: seq<seq<string>>)
      requires Valid()
      modifies this
      ensures Valid()
      ensures csvData == [] ==> rowCount == old(rowCount) && columnCount == old(columnCount) && items == old(items)
      ensures csvData != [] ==> DisplayedTable(Snapshot(), old(items), csvData, CorrectedRowCount(csvData))
    {
      if csvData == [] {
        return;
      }
      ghost var before := items;
      rowCount, columnCount := |csvData| - 1, |csvData[0]|;
      items := map p | p in items && InRange(rowCount, columnCount, p) :: items[p];
      var rowIndex := 1;
      while rowIndex < |csvData|
        invariant 1 <= rowIndex <= |csvData|
        invariant rowCount == |csvData| - 1 && columnCount == |csvData[0]|
        invariant forall p :: Item(items, p) == PartlyDisplayed(before, csvData, rowCount, rowIndex, p)
      {
        FillRow(rowIndex - 1, csvData[rowIndex]);
        rowIndex := rowIndex + 1;
      }
      forall p | p in items ensures InRange(rowCount, columnCount, p) {
        assert Item(items, p) == PartlyDisplayed(before, csvData, rowCount, rowIndex, p);
      }
    }

    /**
     * The inner loop of `display_csv_data`: cell `c` of `rowData` becomes the item at `(row, c)`.
     * The widget ignores an item set outside its columns, and every other item stays as it was.
     */
    method FillRow(row: nat, rowData: seq<string>)
      modifies this
      ensures rowCount == old(rowCount) && columnCount == old(columnCount)
      ensures forall p ::
        Item(items, p) == (if p.row == row && p.col < |rowData| && p.col < columnCount then Some(rowData[p.col])
                           else Item(old(items), p))
    {
      var col := 0;
      while col < |rowData|
        invariant 0 <= col <= |rowData|
        invariant rowCount == old(rowCount) && columnCount == old(columnCount)
        invariant forall p ::
          Item(items, p) == (if p.row == row && p.col < col && p.col < columnCount then Some(rowData[p.col])
                             else Item(old(items), p))
      {
        if col < columnCount {
          items := items[Position(row, col) := rowData[col]];
        }
        col := col + 1;
      }
    }

    /**
     * The rows `save_file` collects: the header `csv_data[0]`, then every table row. With empty
     * `csv_data` the header lookup raises, the handler reports the error, and nothing is written.
     */
    method SaveRows(csvData: seq<seq<string>>) returns (data: Option<seq<seq<string>>>)
      ensures csvData == [] <==> data == None
      ensures csvData != [] ==> data == Some(SavedRows(csvData[0], Snapshot()))
    {
      if csvData == [] {
        return None;
      }
      var cells, columns := items, columnCount;
      var rows := [csvData[0]];
      var row := 0;
      while row < rowCount
        invariant 0 <= row <= rowCount
        invariant rows == [csvData[0]] + seq(row, r requires 0 <= r => SavedRow(cells, columns, r))
      {
        var rowData := [];
        var col := 0;
        while col < columns
          invariant 0 <= col <= columns
          invariant rowData == SavedRow(cells, col, row)
        {
          var position := Position(row, col);
          rowData := rowData + [if position in cells then cells[position] else ""];
          col := col + 1;
        }
        rows := rows + [rowData];
        row := row + 1;
      }
      return Some(rows);
    }

    /**
     * One pass of `translate_column`'s row loop: a row whose source item is missing or blank is
     * skipped; otherwise the source text goes through the endpoint loop, the target item is set
     * when a reply is accepted, and the row is counted as translated or failed. The table and the
     * counts end as `ColumnStep` describes.
     */
    method TranslateRow(row: nat, src: nat, tgt: nat, sourceLang: string, targetLang: string,
                        endpoints: seq<string>, rowReplies: seq<Reply>, current: nat,
                        translated0: nat, failed0: nat, posted0: seq<Request>)
      returns (translated: nat, failed: nat, posted: seq<Request>, next: nat)
      requires Valid() && row < rowCount && tgt < columnCount
      requires 0 < |endpoints| && current < |endpoints| && |rowReplies| == |endpoints|
      modifies this
      ensures Valid() && rowCount == old(rowCount) && columnCount == old(columnCount)
      ensures ColumnStep(ColumnProgress(Tally(old(items), translated0, failed0, posted0), current),
                         row, src, tgt, sourceLang, targetLang, endpoints, rowReplies)
        == ColumnProgress(Tally(items, translated, failed, posted), next)
    {
      translated, failed, posted, next := translated0, failed0, posted0, current;
      var sourceItem := Position(row, src);
      if sourceItem in items && Strip(items[sourceItem]) != "" {
        var text, sent;
        text, next, sent := PostToEndpoints(endpoints, rowReplies, current, items[sourceItem], sourceLang, targetLang);
        posted := posted + sent;
        if text.Some? {
          items := items[Position(row, tgt) := text.value];
          translated := translated + 1;
        } else {
          failed := failed + 1;
        }
      }
    }

    /**
     * `translate_column(src, tgt, sourceLang, targetLang)` over the one local endpoint. `replies[r]`
     * answers the attempts for row `r`, and the progress dialog is cancelled when row `cancelAt`
     * is reached (never, when `cancelAt` is at least the row count). The table ends as the
     * specification run over the rows before the cancellation leaves it, and the counts and the
     * requests sent are that run's.
     */
    method TranslateColumn(src: nat, tgt: nat, sourceLang: string, targetLang: string,
                           replies: seq<seq<Reply>>, cancelAt: nat)
      returns (translated: nat, failed: nat, posted: seq<Request>)
      requires Valid() && src < columnCount && tgt < columnCount
      requires ColumnArgs(ColumnEndpoints, replies) && |replies| == rowCount
      modifies this
      ensures Valid() && rowCount == old(rowCount) && columnCount == old(columnCount)
      ensures var k := Min(cancelAt, rowCount);
        ColumnRun(old(items), src, tgt, sourceLang, targetLang, ColumnEndpoints, replies, k).tally
          == Tally(items, translated, failed, posted)
      ensures translated == TranslatedRows(old(items), src, replies, Min(cancelAt, rowCount))
      ensures failed == FailedRows(old(items), src, replies, Min(cancelAt, rowCount))
      ensures translated + failed == NonBlankRows(old(items), src, Min(cancelAt, rowCount))
      ensures forall row: nat :: (Item(items, Position(row, tgt))
        == if row < Min(cancelAt, rowCount) && RowTranslated(old(items), row, src, replies[row])
           then FirstAccepted(replies[row], 0) else Item(old(items), Position(row, tgt)))
      ensures forall at: Position :: at.col != tgt ==> Item(items, at) == Item(old(items), at)
      ensures ColumnRequests(posted, ColumnEndpoints, sourceLang, targetLang)
    {
      ghost var start := items;
      var endpoints := ColumnEndpoints;
      translated, failed, posted := 0, 0, [];
      var current: nat := 0;
      var row := 0;
      while row < rowCount && row != cancelAt
        invariant 0 <= row <= Min(cancelAt, rowCount)
        invariant rowCount == old(rowCount) && columnCount == old(columnCount) && Valid()
        invariant ColumnRun(start, src, tgt, sourceLang, targetLang, endpoints, replies, row)
          == ColumnProgress(Tally(items, translated, failed, posted), current)
      {
        translated, failed, posted, current :=
          TranslateRow(row, src, tgt, sourceLang, targetLang, endpoints, replies[row], current, translated, failed, posted);
        row := row + 1;
      }
      ColumnRunCounts(start, src, tgt, sourceLang, targetLang, endpoints, replies, row);
      ColumnRunRequests(start, src, tgt, sourceLang, targetLang, endpoints, replies, row);
      forall r: nat ensures Item(items, Position(r, tgt))
        == if r < row && RowTranslated(start, r, src, replies[r]) then FirstAccepted(replies[r], 0) else Item(start, Position(r, tgt))
      {
        ColumnRunWrites(start, src, tgt, sourceLang, targetLang, endpoints, replies, row, r);
      }
      forall at: Position | at.col != tgt ensures Item(items, at) == Item(start, at) {
        ColumnRunKeeps(start, src, tgt, sourceLang, targetLang, endpoints, replies, row, at);
      }
    }

    /**
     * The Translate button of the column dialog. `sourceLang` and `targetLang` are the language
     * fields as stripped and upper-cased; when either is empty only a warning is shown. Otherwise
     * it calls `translate_column(source_combo.currentData(), …)`
     * with a source column from the combo, or None when the combo is empty. `item(row, None)` then
     * raises `TypeError` out of the slot at the first row the progress dialog has not cancelled,
     * before anything has changed; with no rows, or a cancellation before the first one, the loop
     * ends without reaching it.
     */
    method TranslateChosenColumn(source: Option<nat>, tgt: nat, sourceLang: string, targetLang: string,
                                 replies: seq<seq<Reply>>, cancelAt: nat)
      returns (raised: bool, translated: nat, failed: nat, posted: seq<Request>)
      requires Valid() && tgt < columnCount
      requires source.None? ==> SourceColumns(columnCount, tgt) == []
      requires source.Some? ==> source.value in SourceColumns(columnCount, tgt)
      requires ColumnArgs(ColumnEndpoints, replies) && |replies| == rowCount
      modifies this
      ensures Valid() && rowCount == old(rowCount) && columnCount == old(columnCount)
      ensures sourceLang == "" || targetLang == "" ==>
        !raised && items == old(items) && translated == 0 && failed == 0 && posted == []
      ensures sourceLang != "" && targetLang != "" && source.None? ==>
        && raised == (0 < rowCount && 0 < cancelAt)
        && items == old(items) && translated == 0 && failed == 0 && posted == []
      ensures sourceLang != "" && targetLang != "" && source.Some? ==>
        && !raised
        && ColumnRun(old(items), source.value, tgt, sourceLang, targetLang, ColumnEndpoints, replies, Min(cancelAt, rowCount)).tally
             == Tally(items, translated, failed, posted)
    {
      raised, translated, failed, posted := false, 0, 0, [];
      if sourceLang == "" || targetLang == "" {
        return;
      }
      if source.None? {
        raised := 0 < rowCount && 0 < cancelAt;
        return;
      }
      translated, failed, posted := TranslateColumn(source.value, tgt, sourceLang, targetLang, replies, cancelAt);
    }

    /**
     * One pass of `translate_selected_cells`' loop: a blank item is skipped; otherwise its
     * stripped text is posted, the item is set when the reply is accepted, and it is counted as
     * translated or failed, as `SelectedStep` describes.
     */
    method TranslateItem(at: Position, reply: Reply, sourceLang: string, targetLang: string,
                         translated0: nat, failed0: nat, posted0: seq<Request>)
      returns (translated: nat, failed: nat, posted: seq<Request>)
      requires at in items
      modifies this
      ensures rowCount == old(rowCount) && columnCount == old(columnCount)
      ensures SelectedStep(Tally(old(items), translated0, failed0, posted0), at, reply, sourceLang, targetLang)
        == Tally(items, translated, failed, posted)
    {
      translated, failed, posted := translated0, failed0, posted0;
      var cellText := Strip(items[at]);
      if cellText != "" {
        posted := posted + [Request(LocalEndpoint, cellText, sourceLang, targetLang)];
        var accepted := AcceptedText(reply);
        if accepted.Some? {
          items := items[at := accepted.value];
          translated := translated + 1;
        } else {
          failed := failed + 1;
        }
      }
    }

    /**
     * `translate_selected_cells(selected, sourceLang, targetLang)`: `replies[i]` answers the
     * request for item `i`, and the progress dialog is cancelled when item `cancelAt` is reached.
     */
    method TranslateSelectedCells(selected: seq<Position>, sourceLang: string, targetLang: string,
                                  replies: seq<Reply>, cancelAt: nat)
      returns (translated: nat, failed: nat, posted: seq<Request>)
      requires Valid() && SelectionArgs(items, selected, replies)
      modifies this
      ensures Valid() && rowCount == old(rowCount) && columnCount == old(columnCount)
      ensures SelectedRun(old(items), selected, replies, sourceLang, targetLang, Min(cancelAt, |selected|))
        == Tally(items, translated, failed, posted)
      ensures Distinct(selected) ==>
        && translated == TranslatedItems(old(items), selected, replies, Min(cancelAt, |selected|))
        && failed == FailedItems(old(items), selected, replies, Min(cancelAt, |selected|))
      ensures Distinct(selected) ==> forall i :: 0 <= i < |selected| ==> (Item(items, selected[i])
        == if i < Min(cancelAt, |selected|) && ItemTranslated(old(items), selected[i], replies[i])
           then AcceptedText(replies[i]) else Some(old(items)[selected[i]]))
      ensures forall at: Position :: at !in selected ==> Item(items, at) == Item(old(items), at)
      ensures LocalRequests(posted, sourceLang, targetLang)
    {
      ghost var start := items;
      translated, failed, posted := 0, 0, [];
      var index := 0;
      while index < |selected| && index != cancelAt
        invariant 0 <= index <= Min(cancelAt, |selected|)
        invariant rowCount == old(rowCount) && columnCount == old(columnCount)
        invariant SelectedRun(start, selected, replies, sourceLang, targetLang, index) == Tally(items, translated, failed, posted)
      {
        translated, failed, posted := TranslateItem(selected[index], replies[index], sourceLang, targetLang, translated, failed, posted);
        index := index + 1;
      }
      KeptKeysValid(old(Snapshot()), items);
      SelectedRunRequests(start, selected, replies, sourceLang, targetLang, index);
      if Distinct(selected) {
        SelectedRunCounts(start, selected, replies, sourceLang, targetLang, index);
        forall i | 0 <= i < |selected| ensures Item(items, selected[i])
          == if i < index && ItemTranslated(start, selected[i], replies[i]) then AcceptedText(replies[i]) else Some(start[selected[i]])
        {
          SelectedRunResult(start, selected, replies, sourceLang, targetLang, index, i);
        }
      }
      forall at: Position | at !in selected ensures Item(items, at) == Item(start, at) {
        assert at !in selected[..index];
        SelectedRunKeeps(start, selected, replies, sourceLang, targetLang, index, at);
      }
    }
  }
}
