/**
 * Writing the spreadsheet and reading it back (app/hooks/useGoogle.ts,
 * hooks/useGoogle.ts): the shape of the written grid, the meaning of each
 * cell, and what parsing the grid recovers.
 */
module SheetRoundTrip {
  import opened Wrappers
  import opened Seqs
  import opened Text
  import opened HabitTypes
  import opened SheetParse
  import opened SheetBuild

  /**
   * The written grid: nothing exactly when there are neither habits nor
   * snapshots; otherwise the header "Date" and the ascending distinct
   * habit texts, then one row per distinct snapshot date in ascending
   * order, each as wide as the header and starting with its date.
   */
  lemma SheetRowsShape(habits: seq<Habit>, snaps: seq<SheetSnapshot>)
    ensures SheetRows(habits, snaps).None? <==> |snaps| == 0 && |habits| == 0
    ensures SheetRows(habits, snaps).Some? ==>
      var t := SheetRows(habits, snaps).value;
      var names := HabitNames(habits);
      var dates := SnapshotDates(snaps);
      && t[0] == ["Date"] + names
      && |t| == |dates| + 1
      && forall k :: 1 <= k < |t| ==> |t[k]| == |t[0]| && t[k][0] == dates[k - 1]
  {
    WrittenGrid(habits, snaps);
    if SheetRows(habits, snaps).Some? {
      var t := SheetRows(habits, snaps).value;
      var names := HabitNames(habits);
      var dates := SnapshotDates(snaps);
      forall k | 1 <= k < |t| ensures |t[k]| == |t[0]| && t[k][0] == dates[k - 1] {
        assert t[k] == t[1..][k - 1] == DataRow(snaps, habits, names, dates[k - 1]);
      }
    }
  }

  /**
   * A cell is "" exactly when no entry of a snapshot of that date is
   * written under that column; otherwise it is the "did/need" text of the
   * last entry written there, later snapshots and later entries winning.
   */
  lemma CellMeaning(habits: seq<Habit>, snaps: seq<SheetSnapshot>, date: string, name: string)
    ensures var names := HabitNames(habits);
      && (Cell(snaps, habits, names, date, name) == "" <==>
            forall i, j :: 0 <= i < |snaps| && snaps[i].date == date && 0 <= j < |snaps[i].habbits| ==>
              ColumnOf(habits, names, snaps[i].habbits[j]) != Some(name))
      && (Cell(snaps, habits, names, date, name) != "" ==>
            exists i, j :: LastWrittenAt(snaps, habits, names, date, name, i, j)
              && Cell(snaps, habits, names, date, name) == ProgressText(snaps[i].habbits[j].habbitDidCount, snaps[i].habbits[j].habbitNeedCount))
      && (forall i, j :: LastWrittenAt(snaps, habits, names, date, name, i, j) ==>
            Cell(snaps, habits, names, date, name) == ProgressText(snaps[i].habbits[j].habbitDidCount, snaps[i].habbits[j].habbitNeedCount))
  {
    var names := HabitNames(habits);
    if LastEntry(snaps, habits, names, date, name).Some? {
      var i, j := LastEntryWritten(snaps, habits, names, date, name);
    }
    forall i, j | LastWrittenAt(snaps, habits, names, date, name, i, j)
      ensures Cell(snaps, habits, names, date, name) == ProgressText(snaps[i].habbits[j].habbitDidCount, snaps[i].habbits[j].habbitNeedCount)
    {
      LastEntryLast(snaps, habits, names, date, name, i, j);
    }
  }

  /** The entry each written column yields when read back: the column's id, the entry's target and done count. */
  function Relabel(cols: seq<Option<HabitEntry>>, ids: seq<string>): seq<HabitEntry>
    requires |cols| <= |ids|
  {
    if cols == [] then []
    else
      var last := cols[|cols| - 1];
      Relabel(cols[..|cols| - 1], ids)
        + if last.Some? then [HabitEntry(ids[|cols| - 1], last.value.habbitNeedCount, last.value.habbitDidCount)] else []
  }

  /** For each column of day `date`, the entry written there, if any. */
  function Columns(snaps: seq<SheetSnapshot>, habits: seq<Habit>, names: seq<string>, date: string): seq<Option<HabitEntry>> {
    seq(|names|, j requires 0 <= j < |names| => LastEntry(snaps, habits, names, date, names[j]))
  }

  /** Reading the cells of a written row back yields, column by column, the entries that were written. */
  lemma {:induction false} ReadCells(row: seq<string>, n: nat, cols: seq<Option<HabitEntry>>, ids: seq<string>)
    requires |row| == |cols| + 1 && 0 < n <= |row| && n <= |ids| + 1
    requires forall j :: 0 <= j < |cols| ==> row[j + 1] == OrEmpty(Shown(cols[j]))
    requires forall j :: 0 <= j < |cols| && cols[j].Some? ==> cols[j].value.habbitDidCount >= 0 && cols[j].value.habbitNeedCount >= 0
    ensures Entries(row, n, ids) == Relabel(cols[..n - 1], ids)
  {
    if n > 1 {
      ReadCells(row, n - 1, cols, ids);
      assert cols[..n - 1][..n - 2] == cols[..n - 2];
      if cols[n - 2].Some? {
        var e := cols[n - 2].value;
        ParseProgressText(e.habbitDidCount, e.habbitNeedCount);
      }
    }
  }

  /** A row of the date and the texts of written columns reads back as the date and the entries written there. */
  lemma ReadWrittenRow(row: seq<string>, cols: seq<Option<HabitEntry>>, date: string, ids: seq<string>)
    requires |row| == |cols| + 1 && row[0] == date && |cols| <= |ids|
    requires forall j :: 0 <= j < |cols| ==> row[j + 1] == OrEmpty(Shown(cols[j]))
    requires forall j :: 0 <= j < |cols| && cols[j].Some? ==> cols[j].value.habbitDidCount >= 0 && cols[j].value.habbitNeedCount >= 0
    ensures RowSnapshot(row, ids, |cols|) == Snapshot(date, Relabel(cols, ids))
  {
    ReadCells(row, |row|, cols, ids);
    assert cols[..|row| - 1] == cols;
  }

  /** Every count the written grid is made from is a natural number. */
  ghost predicate NaturalCounts(snaps: seq<SheetSnapshot>) {
    forall i, j :: 0 <= i < |snaps| && 0 <= j < |snaps[i].habbits| ==>
      snaps[i].habbits[j].habbitDidCount >= 0 && snaps[i].habbits[j].habbitNeedCount >= 0
  }

  /** The cells of a written row are the texts of the entries written in its columns. */
  lemma RowCells(habits: seq<Habit>, snaps: seq<SheetSnapshot>, names: seq<string>, date: string)
    requires NaturalCounts(snaps)
    ensures var cols := Columns(snaps, habits, names, date);
      var row := DataRow(snaps, habits, names, date);
      && HabitEnd(row, |names|) == |row| == |cols| + 1
      && (forall j :: 0 <= j < |cols| ==> row[j + 1] == OrEmpty(Shown(cols[j])))
      && forall j :: 0 <= j < |cols| && cols[j].Some? ==> cols[j].value.habbitDidCount >= 0 && cols[j].value.habbitNeedCount >= 0
  {
    RowCellTexts(habits, snaps, names, date);
    ColumnsNatural(habits, snaps, names, date);
  }

  /** Cell `j + 1` of a written row is the text of the entry written in column `j`. */
  lemma RowCellTexts(habits: seq<Habit>, snaps: seq<SheetSnapshot>, names: seq<string>, date: string)
    ensures var cols := Columns(snaps, habits, names, date);
      var row := DataRow(snaps, habits, names, date);
      forall j :: 0 <= j < |cols| ==> row[j + 1] == OrEmpty(Shown(cols[j]))
  {
    forall j | 0 <= j < |names| {
      RowCellText(habits, snaps, names, date, j);
    }
  }

  /** Cell `j + 1` of a written row is the text of the entry written in column `j`. */
  lemma RowCellText(habits: seq<Habit>, snaps: seq<SheetSnapshot>, names: seq<string>, date: string, j: nat)
    requires j < |names|
    ensures DataRow(snaps, habits, names, date)[j + 1] == OrEmpty(Shown(Columns(snaps, habits, names, date)[j]))
  {
    var e := LastEntry(snaps, habits, names, date, names[j]);
    assert Columns(snaps, habits, names, date)[j] == e;
    assert DataRow(snaps, habits, names, date)[j + 1] == Cell(snaps, habits, names, date, names[j]) == OrEmpty(Shown(e));
  }

  /** Every entry written in a row's columns has natural counts. */
  lemma ColumnsNatural(habits: seq<Habit>, snaps: seq<SheetSnapshot>, names: seq<string>, date: string)
    requires NaturalCounts(snaps)
    ensures var cols := Columns(snaps, habits, names, date);
      forall j :: 0 <= j < |cols| && cols[j].Some? ==> cols[j].value.habbitDidCount >= 0 && cols[j].value.habbitNeedCount >= 0
  {
    var cols := Columns(snaps, habits, names, date);
    forall j | 0 <= j < |cols| && cols[j].Some?
      ensures cols[j].value.habbitDidCount >= 0 && cols[j].value.habbitNeedCount >= 0
    {
      LastEntryNatural(snaps, habits, names, date, names[j]);
    }
  }

  /** The entry written in a column comes from some snapshot, so its counts are natural. */
  lemma LastEntryNatural(snaps: seq<SheetSnapshot>, habits: seq<Habit>, names: seq<string>, date: string, name: string)
    requires NaturalCounts(snaps)
    ensures var e := LastEntry(snaps, habits, names, date, name);
      e.Some? ==> e.value.habbitDidCount >= 0 && e.value.habbitNeedCount >= 0
  {
    var e := LastEntry(snaps, habits, names, date, name);
    if e.Some? {
      var i :| 0 <= i < |snaps| && snaps[i].date == date && e.value in snaps[i].habbits;
      var k :| 0 <= k < |snaps[i].habbits| && snaps[i].habbits[k] == e.value;
    }
  }

  /** Parsing a header of `names` over rows that are all data rows: one habit per name, one snapshot per row. */
  lemma ParseDataRows(names: seq<string>, rows: seq<seq<string>>, ids: seq<string>)
    requires 0 < |names| <= |ids|
    requires forall k :: 0 <= k < |rows| ==> IsDataRow(rows[k])
    ensures var p := ParsedTable(["Date"] + names, rows, ids);
      && |p.habits| == |names|
      && (forall j :: 0 <= j < |names| ==> p.habits[j] == Habit(ids[j], names[j]))
      && |p.snapshots| == |rows|
      && forall k :: 0 <= k < |rows| ==> p.snapshots[k] == RowSnapshot(rows[k], ids, |names|)
  {
    DataRowsParsed(rows, ids, |names|);
  }

  /** Rows that are all data rows yield one snapshot each, in order. */
  lemma DataRowsParsed(rows: seq<seq<string>>, ids: seq<string>, width: nat)
    requires width <= |ids|
    requires forall k :: 0 <= k < |rows| ==> IsDataRow(rows[k])
    ensures |ParsedRows(rows, ids, width)| == |rows|
    ensures forall k :: 0 <= k < |rows| ==> ParsedRows(rows, ids, width)[k] == RowSnapshot(rows[k], ids, width)
  {
    FilterAll(rows, IsDataRow);
  }

  /** A written row reads back as its date and the entries written in its columns. */
  lemma ReadRow(habits: seq<Habit>, snaps: seq<SheetSnapshot>, names: seq<string>, date: string, ids: seq<string>)
    requires |names| <= |ids|
    requires NaturalCounts(snaps)
    ensures RowSnapshot(DataRow(snaps, habits, names, date), ids, |names|)
      == Snapshot(date, Relabel(Columns(snaps, habits, names, date), ids))
  {
    RowCells(habits, snaps, names, date);
    ReadWrittenRow(DataRow(snaps, habits, names, date), Columns(snaps, habits, names, date), date, ids);
  }

  /**
   * Round trip: when there is at least one habit, every snapshot date is
   * non-empty and every count is natural, parsing the written grid with
   * fresh ids gives one habit per distinct name, in header order, and one
   * snapshot per distinct date, in ascending order, whose entries are, for
   * each column in order that holds progress, that column's id with the
   * target and done count that were written there.
   */
  lemma RoundTrip(habits: seq<Habit>, snaps: seq<SheetSnapshot>, ids: seq<string>)
    requires |habits| > 0
    requires |HabitNames(habits)| <= |ids|
    requires forall i :: 0 <= i < |snaps| ==> snaps[i].date != ""
    requires NaturalCounts(snaps)
    ensures SheetRows(habits, snaps).Some?
    ensures var t := SheetRows(habits, snaps).value;
      var names := HabitNames(habits);
      var dates := SnapshotDates(snaps);
      var p := ParsedTable(t[0], t[1..], ids);
      && |t[0]| <= |ids| + 1
      && |p.habits| == |names|
      && (forall j :: 0 <= j < |names| ==> p.habits[j] == Habit(ids[j], names[j]))
      && |p.snapshots| == |dates|
      && forall k :: 0 <= k < |dates| ==>
           p.snapshots[k] == Snapshot(dates[k], Relabel(Columns(snaps, habits, names, dates[k]), ids))
  {
    WrittenGrid(habits, snaps);
    var t := SheetRows(habits, snaps).value;
    var names := HabitNames(habits);
    var dates := SnapshotDates(snaps);
    assert habits[0].text in names;
    var rows := t[1..];
    forall k | 0 <= k < |rows|
      ensures IsDataRow(rows[k])
      ensures RowSnapshot(rows[k], ids, |names|) == Snapshot(dates[k], Relabel(Columns(snaps, habits, names, dates[k]), ids))
    {
      assert rows[k] == DataRow(snaps, habits, names, dates[k]);
      assert dates[k] in dates;
      ReadRow(habits, snaps, names, dates[k], ids);
    }
    ParseDataRows(names, rows, ids);
  }

  /** The grid is written unless there is nothing to write: the header of names, then one data row per distinct date. */
  lemma WrittenGrid(habits: seq<Habit>, snaps: seq<SheetSnapshot>)
    ensures SheetRows(habits, snaps).None? <==> |snaps| == 0 && |habits| == 0
    ensures SheetRows(habits, snaps).Some? ==>
      var t := SheetRows(habits, snaps).value;
      var names := HabitNames(habits);
      var dates := SnapshotDates(snaps);
      && t[0] == ["Date"] + names && |t| == |dates| + 1
      && forall k :: 0 <= k < |dates| ==> t[1..][k] == DataRow(snaps, habits, names, dates[k])
  {
  }
}
