/**
 * Reading the spreadsheet back (parseSpreadsheetDataToHabits in both
 * app/hooks/useGoogle.ts and hooks/useGoogle.ts, which share the code):
 * a header row "Date", name, name, ... and data rows date, "did/need", ...
 * become habits with fresh ids and one snapshot per dated row.
 */
module SheetParse {
  import opened Wrappers
  import opened Seqs
  import opened Text
  import opened HabitTypes

  /** A snapshot as it reads in the sheet: its date is the first cell's text. */
  type SheetSnapshot = Snapshot<string>

  /** The two numbers of a "did/need" cell. */
  datatype Progress = Progress(did: nat, need: nat)

  /** The result of parsing: habits and snapshots. */
  datatype Parsed = Parsed(habits: seq<Habit>, snapshots: seq<SheetSnapshot>)

  /** `k` splits `cell` into digits, a slash, digits. */
  ghost predicate SplitsAt(cell: string, k: int) {
    0 <= k < |cell| && cell[k] == '/' && IsDigits(cell[..k]) && IsDigits(cell[k + 1..])
  }

  /** The position of the first '/' of `cell` at or after `i`, or -1 when there is none. */
  function SlashFrom(cell: string, i: nat): (k: int)
    requires i <= |cell|
    ensures k == -1 || i <= k < |cell|
    decreases |cell| - i
  {
    if i == |cell| then -1 else if cell[i] == '/' then i else SlashFrom(cell, i + 1)
  }

  /** The position found holds a slash and none comes before it; -1 means there is no slash. */
  lemma {:induction false} SlashFromSpec(cell: string, i: nat)
    requires i <= |cell|
    ensures var k := SlashFrom(cell, i);
      && (k >= 0 ==> cell[k] == '/' && forall j :: i <= j < k ==> cell[j] != '/')
      && (k == -1 ==> forall j :: i <= j < |cell| ==> cell[j] != '/')
    decreases |cell| - i
  {
    if i < |cell| && cell[i] != '/' {
      SlashFromSpec(cell, i + 1);
    }
  }

  /** A slash with none before it is the one found. */
  lemma {:induction false} SlashFromAt(cell: string, i: nat, m: nat)
    requires i <= m < |cell| && cell[m] == '/'
    requires forall j :: i <= j < m ==> cell[j] != '/'
    ensures SlashFrom(cell, i) == m
    decreases m - i
  {
    if i < m {
      SlashFromAt(cell, i + 1, m);
    }
  }

  /**
   * `cell.match(/^(\d+)\/(\d+)$/)` with both groups read by parseInt:
   * split at the first slash, both sides must be digits.
   */
  function ParseCell(cell: string): Option<Progress> {
    var k := SlashFrom(cell, 0);
    if k >= 0 && IsDigits(cell[..k]) && IsDigits(cell[k + 1..]) then
      Some(Progress(DecimalValue(cell[..k]), DecimalValue(cell[k + 1..])))
    else None
  }

  /** A cell split at a slash into digits and digits reads as those two numbers. */
  lemma ParseCellAt(cell: string, k: int)
    requires SplitsAt(cell, k)
    ensures ParseCell(cell) == Some(Progress(DecimalValue(cell[..k]), DecimalValue(cell[k + 1..])))
  {
    forall i | 0 <= i < k ensures cell[i] != '/' {
      assert cell[..k][i] == cell[i];
    }
    SlashFromAt(cell, 0, k);
  }

  /** A cell that reads as a value is split at its first slash into digits and digits. */
  lemma ParseCellSplits(cell: string)
    requires ParseCell(cell).Some?
    ensures SplitsAt(cell, SlashFrom(cell, 0))
  {
    SlashFromSpec(cell, 0);
  }

  /**
   * The match in terms of the cell: a value exactly when the cell is
   * digits, one slash, digits; did is the first number, need the second.
   */
  lemma ParseCellSpec(cell: string)
    ensures ParseCell(cell).Some? <==> exists k :: SplitsAt(cell, k)
    ensures forall k :: SplitsAt(cell, k) ==>
      ParseCell(cell) == Some(Progress(DecimalValue(cell[..k]), DecimalValue(cell[k + 1..])))
  {
    forall k | SplitsAt(cell, k)
      ensures ParseCell(cell) == Some(Progress(DecimalValue(cell[..k]), DecimalValue(cell[k + 1..])))
    {
      ParseCellAt(cell, k);
    }
    if ParseCell(cell).Some? {
      ParseCellSplits(cell);
    }
  }

  /** The text a count pair is written as: `${did}/${need}`. */
  function ProgressText(did: int, need: int): string {
    IntText(did) + "/" + IntText(need)
  }

  /**
   * Reading a written pair back: natural counts come back unchanged; a
   * negative count makes the cell unreadable.
   */
  lemma ParseProgressText(did: int, need: int)
    ensures ParseCell(ProgressText(did, need)) == if did >= 0 && need >= 0 then Some(Progress(did, need)) else None
  {
    var cell := ProgressText(did, need);
    var k := |IntText(did)|;
    ProgressTextParts(did, need);
    if did >= 0 && need >= 0 {
      DecimalValueOfNatText(did);
      DecimalValueOfNatText(need);
    } else if did < 0 {
      assert !IsDigit(cell[..k][0]);
    } else {
      assert !IsDigit(cell[k + 1..][0]);
    }
  }

  /** A written pair splits at the end of the first number, where its first slash is. */
  lemma ProgressTextParts(did: int, need: int)
    ensures var cell := ProgressText(did, need);
      var k := |IntText(did)|;
      && k < |cell| && cell[..k] == IntText(did) && cell[k] == '/' && cell[k + 1..] == IntText(need)
      && SlashFrom(cell, 0) == k
  {
    var cell := ProgressText(did, need);
    var a := IntText(did);
    var k := |a|;
    assert cell[..k] == a && cell[k] == '/' && cell[k + 1..] == IntText(need);
    IntTextNoSlash(did);
    forall i | 0 <= i < k ensures cell[i] != '/' {
      assert cell[i] == a[i];
    }
    SlashFromAt(cell, 0, k);
  }

  /** The text of an integer holds no slash. */
  lemma IntTextNoSlash(n: int)
    ensures forall i :: 0 <= i < |IntText(n)| ==> IntText(n)[i] != '/'
  {
    var a := IntText(n);
    if n < 0 {
      assert forall i :: 1 <= i < |a| ==> a[i] == a[1..][i - 1];
    }
  }

  /** `if (!progressStr) continue;` then the match: the entry one cell yields for column id `id`. */
  function CellEntry(cell: string, id: string): seq<HabitEntry> {
    if cell == "" then []
    else match ParseCell(cell)
      case None => []
      case Some(p) => [HabitEntry(id, p.need, p.did)]
  }

  /** A cell yields one entry exactly when it reads, tagged with the column's id and holding the cell's need and did. */
  lemma CellEntrySpec(cell: string, id: string)
    ensures |CellEntry(cell, id)| <= 1
    ensures CellEntry(cell, id) != [] <==> ParseCell(cell).Some?
    ensures CellEntry(cell, id) != [] ==>
      CellEntry(cell, id)[0] == HabitEntry(id, ParseCell(cell).value.need, ParseCell(cell).value.did)
  {
    if cell == "" {
      assert SlashFrom(cell, 0) == -1;
    }
  }

  /** The entries of the cells of `row` in columns 1 up to `n` (exclusive), column `j` tagged with `ids[j - 1]`, in column order. */
  function Entries(row: seq<string>, n: nat, ids: seq<string>): seq<HabitEntry>
    requires 0 < n <= |row| && n <= |ids| + 1
  {
    if n == 1 then [] else Entries(row, n - 1, ids) + CellEntry(row[n - 1], ids[n - 2])
  }

  /** A cell that is empty or does not read adds no entry. */
  lemma EntriesSkip(row: seq<string>, i: nat, ids: seq<string>)
    requires 0 < i < |row| && i <= |ids|
    requires row[i] == "" || ParseCell(row[i]).None?
    ensures Entries(row, i + 1, ids) == Entries(row, i, ids)
  {
  }

  /** A cell that reads as `p` adds one entry with the column's id and `p`'s counts. */
  lemma EntriesRead(row: seq<string>, i: nat, ids: seq<string>, p: Progress)
    requires 0 < i < |row| && i <= |ids|
    requires row[i] != "" && ParseCell(row[i]) == Some(p)
    ensures Entries(row, i + 1, ids) == Entries(row, i, ids) + [HabitEntry(ids[i - 1], p.need, p.did)]
  {
  }

  /** Cells after column `n` do not change the entries before it. */
  lemma {:induction false} EntriesPrefix(row: seq<string>, extra: seq<string>, n: nat, ids: seq<string>)
    requires 0 < n <= |row| && n <= |ids| + 1
    ensures Entries(row + extra, n, ids) == Entries(row, n, ids)
  {
    if n > 1 {
      EntriesPrefix(row, extra, n - 1, ids);
      assert (row + extra)[n - 1] == row[n - 1];
    }
  }

  /** A row that yields a snapshot: non-empty, with a non-empty first cell. */
  predicate IsDataRow(row: seq<string>) {
    |row| > 0 && row[0] != ""
  }

  /** Where the inner loop stops: after the row's last cell or after the last name column, whichever comes first. */
  function HabitEnd(row: seq<string>, width: nat): (n: nat)
    requires |row| > 0
    ensures 0 < n <= |row| && n <= width + 1
    ensures n == |row| || n == width + 1
  {
    if |row| < width + 1 then |row| else width + 1
  }

  /** The snapshot a data row yields. */
  function RowSnapshot(row: seq<string>, ids: seq<string>, width: nat): SheetSnapshot
    requires |row| > 0 && width <= |ids|
  {
    Snapshot(row[0], Entries(row, HabitEnd(row, width), ids))
  }

  /** The snapshots of the data rows, in row order. */
  function ParsedRows(rows: seq<seq<string>>, ids: seq<string>, width: nat): seq<SheetSnapshot>
    requires width <= |ids|
  {
    var kept := Filter(rows, IsDataRow);
    seq(|kept|, k requires 0 <= k < |kept| => RowSnapshot(kept[k], ids, width))
  }

  /** One more row adds its snapshot at the end when it is a data row, and nothing otherwise. */
  lemma ParsedRowsAppend(rows: seq<seq<string>>, row: seq<string>, ids: seq<string>, width: nat)
    requires width <= |ids|
    ensures ParsedRows(rows + [row], ids, width)
      == ParsedRows(rows, ids, width) + if IsDataRow(row) then [RowSnapshot(row, ids, width)] else []
  {
    FilterAppend(rows, [row], IsDataRow);
    assert [row][..0] == [];
    assert Filter([row], IsDataRow) == if IsDataRow(row) then [row] else [];
  }

  /** What parseSpreadsheetDataToHabits returns, with `ids` the fresh ids it draws in order. */
  function ParsedTable(headers: seq<string>, rows: seq<seq<string>>, ids: seq<string>): Parsed
    requires |headers| <= |ids| + 1
  {
    if |headers| <= 1 then Parsed([], [])
    else
      Parsed(seq(|headers| - 1, j requires 0 <= j < |headers| - 1 => Habit(ids[j], headers[j + 1])),
             ParsedRows(rows, ids, |headers| - 1))
  }

  /**
   * The inner loop of parseSpreadsheetDataToHabits over one row: columns
   * 1 up to the header width, skipping empty and unreadable cells.
   */
  method RowEntries(row: seq<string>, ids: seq<string>, width: nat) returns (habitData: seq<HabitEntry>)
    requires |row| > 0 && width <= |ids|
    ensures habitData == Entries(row, HabitEnd(row, width), ids)
  {
    habitData := [];
    var i := 1;
    while i < |row| && i <= width
      invariant 1 <= i <= |row|
      invariant i <= width + 1
      invariant habitData == Entries(row, i, ids)
    {
      var progressStr := row[i];
      if progressStr == "" {
        EntriesSkip(row, i, ids);
        i := i + 1;
        continue;
      }
      var progressMatch := ParseCell(progressStr);
      if progressMatch.Some? {
        EntriesRead(row, i, ids, progressMatch.value);
        habitData := habitData + [HabitEntry(ids[i - 1], progressMatch.value.need, progressMatch.value.did)];
      } else {
        EntriesSkip(row, i, ids);
      }
      i := i + 1;
    }
  }

  /**
   * parseSpreadsheetDataToHabits: habits from the header cells after the
   * first, then, row by row, a snapshot for each dated row with an entry
   * for each readable cell under a header.
   */
  method ParseSpreadsheetDataToHabits(headers: seq<string>, dataRows: seq<seq<string>>, ids: seq<string>) returns (r: Parsed)
    requires |headers| <= |ids| + 1
    ensures r == ParsedTable(headers, dataRows, ids)
  {
    if |headers| <= 1 {
      return Parsed([], []);
    }
    var habitNames := headers[1..];
    var habits := seq(|habitNames|, j requires 0 <= j < |habitNames| => Habit(ids[j], habitNames[j]));
    var snapshots: seq<SheetSnapshot> := [];
    for n := 0 to |dataRows|
      invariant snapshots == ParsedRows(dataRows[..n], ids, |habitNames|)
    {
      var row := dataRows[n];
      assert dataRows[..n + 1] == dataRows[..n] + [row];
      ParsedRowsAppend(dataRows[..n], row, ids, |habitNames|);
      if |row| == 0 || row[0] == "" {
        continue;
      }
      var date := row[0];
      var habitData := RowEntries(row, ids, |habitNames|);
      snapshots := snapshots + [Snapshot(date, habitData)];
    }
    assert dataRows[..|dataRows|] == dataRows;
    r := Parsed(habits, snapshots);
  }

  /**
   * The parse in terms of the input: no habits and no snapshots without a
   * name column; otherwise one habit per name column, in order, with that
   * column's id and text, and one snapshot per dated row, in row order:
   * the k-th snapshot is read from the k-th dated row.
   */
  lemma ParsedTableSpec(headers: seq<string>, rows: seq<seq<string>>, ids: seq<string>)
    requires |headers| <= |ids| + 1
    ensures var p := ParsedTable(headers, rows, ids);
      && (|headers| <= 1 ==> p.habits == [] && p.snapshots == [])
      && (|headers| > 1 ==>
            && |p.habits| == |headers| - 1
            && (forall j :: 0 <= j < |p.habits| ==> p.habits[j].id == ids[j] && p.habits[j].text == headers[j + 1])
            && |p.snapshots| == CountWhere(rows, IsDataRow)
            && (forall s :: s in p.snapshots ==> s.date != "")
            && forall k :: 0 <= k < |p.snapshots| ==>
                 p.snapshots[k] == RowSnapshot(Filter(rows, IsDataRow)[k], ids, |headers| - 1))
  {
    if |headers| > 1 {
      FilterCount(rows, IsDataRow);
      var p := ParsedTable(headers, rows, ids);
      forall s | s in p.snapshots ensures s.date != "" {
        var k :| 0 <= k < |p.snapshots| && p.snapshots[k] == s;
      }
    }
  }

  /** Cells to the right of the last name column never matter. */
  lemma ExtraCellsIgnored(row: seq<string>, extra: seq<string>, ids: seq<string>, width: nat)
    requires width <= |ids| && |row| >= width + 1
    ensures RowSnapshot(row + extra, ids, width) == RowSnapshot(row, ids, width)
  {
    EntriesPrefix(row, extra, HabitEnd(row, width), ids);
  }
}
