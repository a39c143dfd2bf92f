/**
 * Writing the spreadsheet (the table-building block of
 * populateSpreadsheetWithHabits in app/hooks/useGoogle.ts and
 * hooks/useGoogle.ts, which share the code): a header "Date" followed by
 * the distinct habit names in ascending order, then one row per distinct
 * snapshot date in ascending order with a "did/need" cell per name.
 */
module SheetBuild {
  import opened Wrappers
  import opened Text
  import opened HabitTypes
  import opened SheetParse

  type Row = seq<string>

  /** `m.get(k)`. */
  function Lookup<K, V>(m: map<K, V>, k: K): Option<V> {
    if k in m then Some(m[k]) else None
  }

  /** `habitIdToName.get(id)` once every habit is set in order: the text of the last habit with that id. */
  function NameOf(habits: seq<Habit>, id: string): (r: Option<string>)
    ensures r.None? <==> forall i :: 0 <= i < |habits| ==> habits[i].id != id
    ensures r.Some? ==> exists i :: 0 <= i < |habits| && habits[i].id == id && habits[i].text == r.value
  {
    if habits == [] then None
    else if habits[|habits| - 1].id == id then Some(habits[|habits| - 1].text)
    else
      var r := NameOf(habits[..|habits| - 1], id);
      assert forall i :: 0 <= i < |habits| - 1 ==> habits[..|habits| - 1][i] == habits[i];
      r
  }

  function Texts(habits: seq<Habit>): seq<string> {
    seq(|habits|, i requires 0 <= i < |habits| => habits[i].text)
  }

  function DateList(snaps: seq<SheetSnapshot>): seq<string> {
    seq(|snaps|, i requires 0 <= i < |snaps| => snaps[i].date)
  }

  /** `currentHabitNames`: the distinct habit texts, ascending. */
  function HabitNames(habits: seq<Habit>): (names: seq<string>)
    ensures Ascending(names)
    ensures forall y :: y in names <==> exists i :: 0 <= i < |habits| && habits[i].text == y
  {
    var ts := Texts(habits);
    assert forall i :: 0 <= i < |habits| ==> ts[i] == habits[i].text;
    SortDistinct(ts)
  }

  /** `sortedDates`: the distinct snapshot dates, ascending. */
  function SnapshotDates(snaps: seq<SheetSnapshot>): (dates: seq<string>)
    ensures Ascending(dates)
    ensures forall y :: y in dates <==> exists i :: 0 <= i < |snaps| && snaps[i].date == y
  {
    var ds := DateList(snaps);
    assert forall i :: 0 <= i < |snaps| ==> ds[i] == snaps[i].date;
    SortDistinct(ds)
  }

  /** The column an entry is written under: its habit's name, when that is non-empty and a header. */
  function ColumnOf(habits: seq<Habit>, names: seq<string>, e: HabitEntry): Option<string> {
    var n := NameOf(habits, e.habbitId);
    if n.Some? && n.value != "" && n.value in names then n else None
  }

  /** The last entry of one snapshot written under column `name`. */
  function LastInDay(es: seq<HabitEntry>, habits: seq<Habit>, names: seq<string>, name: string): (r: Option<HabitEntry>)
    ensures r.Some? ==> r.value in es && ColumnOf(habits, names, r.value) == Some(name)
    ensures r.None? <==> forall j :: 0 <= j < |es| ==> ColumnOf(habits, names, es[j]) != Some(name)
  {
    if es == [] then None
    else if ColumnOf(habits, names, es[|es| - 1]) == Some(name) then Some(es[|es| - 1])
    else
      var r := LastInDay(es[..|es| - 1], habits, names, name);
      assert forall j :: 0 <= j < |es| - 1 ==> es[..|es| - 1][j] == es[j];
      r
  }

  /**
   * The entry whose progress ends up in column `name` of day `date`: the
   * last one written, in snapshot order and then entry order, since each
   * write to the day's map replaces the earlier one.
   */
  function LastEntry(snaps: seq<SheetSnapshot>, habits: seq<Habit>, names: seq<string>, date: string, name: string): (r: Option<HabitEntry>)
    ensures r.Some? ==> ColumnOf(habits, names, r.value) == Some(name)
    ensures r.Some? ==> exists i :: 0 <= i < |snaps| && snaps[i].date == date && r.value in snaps[i].habbits
    ensures r.None? <==> forall i, j :: 0 <= i < |snaps| && snaps[i].date == date && 0 <= j < |snaps[i].habbits| ==>
      ColumnOf(habits, names, snaps[i].habbits[j]) != Some(name)
  {
    if snaps == [] then None
    else
      var s := snaps[|snaps| - 1];
      var e := LastInDay(s.habbits, habits, names, name);
      if s.date == date && e.Some? then e
      else
        var r := LastEntry(snaps[..|snaps| - 1], habits, names, date, name);
        assert forall i :: 0 <= i < |snaps| - 1 ==> snaps[..|snaps| - 1][i] == snaps[i];
        r
  }

  /** Habit `i` is the last one in the list with id `id`. */
  ghost predicate LastWithId(habits: seq<Habit>, id: string, i: int) {
    && 0 <= i < |habits| && habits[i].id == id
    && forall k :: i < k < |habits| ==> habits[k].id != id
  }

  /** Later habits win the id-to-text map: the text is that of the last habit with the id. */
  lemma {:induction false} NameOfLast(habits: seq<Habit>, id: string, i: int)
    requires LastWithId(habits, id, i)
    ensures NameOf(habits, id) == Some(habits[i].text)
    decreases |habits|
  {
    if i < |habits| - 1 {
      var front := habits[..|habits| - 1];
      assert LastWithId(front, id, i);
      NameOfLast(front, id, i);
    }
  }

  /** Entry `j` is the last one of `es` written under column `name`. */
  ghost predicate LastWrittenIn(es: seq<HabitEntry>, habits: seq<Habit>, names: seq<string>, name: string, j: int) {
    && 0 <= j < |es| && ColumnOf(habits, names, es[j]) == Some(name)
    && forall k :: j < k < |es| ==> ColumnOf(habits, names, es[k]) != Some(name)
  }

  /** Within one snapshot the later entry wins a column. */
  lemma {:induction false} LastInDayLast(es: seq<HabitEntry>, habits: seq<Habit>, names: seq<string>, name: string, j: int)
    requires LastWrittenIn(es, habits, names, name, j)
    ensures LastInDay(es, habits, names, name) == Some(es[j])
    decreases |es|
  {
    if j < |es| - 1 {
      var front := es[..|es| - 1];
      assert LastWrittenIn(front, habits, names, name, j);
      LastInDayLast(front, habits, names, name, j);
    }
  }

  /** An entry for another column after the last write leaves it the last write. */
  lemma LastWrittenInGrow(es: seq<HabitEntry>, habits: seq<Habit>, names: seq<string>, name: string, j: int)
    requires es != [] && LastWrittenIn(es[..|es| - 1], habits, names, name, j)
    requires ColumnOf(habits, names, es[|es| - 1]) != Some(name)
    ensures LastWrittenIn(es, habits, names, name, j)
  {
    assert forall k :: 0 <= k < |es| - 1 ==> es[..|es| - 1][k] == es[k];
  }

  /** What one snapshot writes under a column is its last entry for that column, at index `j`. */
  lemma {:induction false} LastInDayWritten(es: seq<HabitEntry>, habits: seq<Habit>, names: seq<string>, name: string) returns (j: int)
    requires LastInDay(es, habits, names, name).Some?
    ensures LastWrittenIn(es, habits, names, name, j) && es[j] == LastInDay(es, habits, names, name).value
    decreases |es|
  {
    if ColumnOf(habits, names, es[|es| - 1]) == Some(name) {
      j := |es| - 1;
    } else {
      var front := es[..|es| - 1];
      assert LastInDay(es, habits, names, name) == LastInDay(front, habits, names, name);
      j := LastInDayWritten(front, habits, names, name);
      LastWrittenInGrow(es, habits, names, name, j);
    }
  }

  /**
   * Entry `j` of snapshot `i` is the last entry written under column
   * `name` of day `date`: later entries of that snapshot and every entry
   * of a later snapshot of that date go elsewhere.
   */
  ghost predicate LastWrittenAt(snaps: seq<SheetSnapshot>, habits: seq<Habit>, names: seq<string>, date: string, name: string, i: int, j: int) {
    && 0 <= i < |snaps| && snaps[i].date == date
    && LastWrittenIn(snaps[i].habbits, habits, names, name, j)
    && forall i2, k :: i < i2 < |snaps| && snaps[i2].date == date && 0 <= k < |snaps[i2].habbits| ==>
         ColumnOf(habits, names, snaps[i2].habbits[k]) != Some(name)
  }

  /** Across the snapshots of one date the later write wins a column. */
  lemma {:induction false} LastEntryLast(snaps: seq<SheetSnapshot>, habits: seq<Habit>, names: seq<string>, date: string, name: string, i: int, j: int)
    requires LastWrittenAt(snaps, habits, names, date, name, i, j)
    ensures LastEntry(snaps, habits, names, date, name) == Some(snaps[i].habbits[j])
    decreases |snaps|
  {
    if i == |snaps| - 1 {
      LastInDayLast(snaps[i].habbits, habits, names, name, j);
    } else {
      var front := snaps[..|snaps| - 1];
      assert LastWrittenAt(front, habits, names, date, name, i, j);
      LastEntryLast(front, habits, names, date, name, i, j);
    }
  }

  /** A later snapshot that writes nothing to the column of that day leaves the last write in place. */
  lemma LastWrittenAtGrow(snaps: seq<SheetSnapshot>, habits: seq<Habit>, names: seq<string>, date: string, name: string, i: int, j: int)
    requires snaps != [] && LastWrittenAt(snaps[..|snaps| - 1], habits, names, date, name, i, j)
    requires snaps[|snaps| - 1].date == date ==> LastInDay(snaps[|snaps| - 1].habbits, habits, names, name).None?
    ensures LastWrittenAt(snaps, habits, names, date, name, i, j)
  {
    assert forall k :: 0 <= k < |snaps| - 1 ==> snaps[..|snaps| - 1][k] == snaps[k];
  }

  /** What a day's column ends up holding is the last entry written there: entry `j` of snapshot `i`. */
  lemma {:induction false} LastEntryWritten(snaps: seq<SheetSnapshot>, habits: seq<Habit>, names: seq<string>, date: string, name: string)
    returns (i: int, j: int)
    requires LastEntry(snaps, habits, names, date, name).Some?
    ensures LastWrittenAt(snaps, habits, names, date, name, i, j)
    ensures snaps[i].habbits[j] == LastEntry(snaps, habits, names, date, name).value
    decreases |snaps|
  {
    var n := |snaps| - 1;
    var s := snaps[n];
    var e := LastInDay(s.habbits, habits, names, name);
    if s.date == date && e.Some? {
      i := n;
      j := LastInDayWritten(s.habbits, habits, names, name);
    } else {
      var front := snaps[..n];
      assert LastEntry(snaps, habits, names, date, name) == LastEntry(front, habits, names, date, name);
      i, j := LastEntryWritten(front, habits, names, date, name);
      LastWrittenAtGrow(snaps, habits, names, date, name, i, j);
    }
  }

  /** The progress text an entry is written as, if there is one. */
  function Shown(e: Option<HabitEntry>): Option<string> {
    if e.Some? then Some(ProgressText(e.value.habbitDidCount, e.value.habbitNeedCount)) else None
  }

  /** `value || ""`. */
  function OrEmpty(o: Option<string>): string {
    if o.Some? then o.value else ""
  }

  /** The cell of day `date` under column `name`: the last progress written there, or "". */
  function Cell(snaps: seq<SheetSnapshot>, habits: seq<Habit>, names: seq<string>, date: string, name: string): string {
    OrEmpty(Shown(LastEntry(snaps, habits, names, date, name)))
  }

  /** The row of day `date`: the date, then the cell of every name column in header order. */
  function DataRow(snaps: seq<SheetSnapshot>, habits: seq<Habit>, names: seq<string>, date: string): (row: Row)
    ensures |row| == |names| + 1 && row[0] == date
  {
    [date] + seq(|names|, j requires 0 <= j < |names| => Cell(snaps, habits, names, date, names[j]))
  }

  /** The grid written to the sheet, header first; nothing at all when there are neither habits nor snapshots. */
  function SheetRows(habits: seq<Habit>, snaps: seq<SheetSnapshot>): Option<seq<Row>> {
    if |snaps| == 0 && |habits| == 0 then None
    else
      var names := HabitNames(habits);
      var dates := SnapshotDates(snaps);
      Some([["Date"] + names] + seq(|dates|, k requires 0 <= k < |dates| => DataRow(snaps, habits, names, dates[k])))
  }

  /** Only a date some snapshot carries can have an entry. */
  lemma LastEntryDated(snaps: seq<SheetSnapshot>, habits: seq<Habit>, names: seq<string>, date: string, name: string)
    ensures LastEntry(snaps, habits, names, date, name).Some? ==> date in DateList(snaps)
  {
    if LastEntry(snaps, habits, names, date, name).Some? {
      var k :| 0 <= k < |snaps| && snaps[k].date == date && LastEntry(snaps, habits, names, date, name).value in snaps[k].habbits;
      assert DateList(snaps)[k] == date;
    }
  }

  /** `habits.forEach(h => habitIdToName.set(h.id, h.text))`. */
  method HabitIdToName(habits: seq<Habit>) returns (m: map<string, string>)
    ensures forall id :: Lookup(m, id) == NameOf(habits, id)
  {
    m := map[];
    for i := 0 to |habits|
      invariant forall id :: Lookup(m, id) == NameOf(habits[..i], id)
    {
      assert habits[..i + 1][..i] == habits[..i];
      m := m[habits[i].id := habits[i].text];
    }
    assert habits[..|habits|] == habits;
  }

  /** `snapshot.habbits.forEach(...)`: writes one snapshot's entries into its day's map. */
  method WriteDay(dayData: map<string, string>, es: seq<HabitEntry>, idToName: map<string, string>,
                  habits: seq<Habit>, names: seq<string>) returns (day: map<string, string>)
    requires forall id :: Lookup(idToName, id) == NameOf(habits, id)
    ensures forall n :: Lookup(day, n) == if LastInDay(es, habits, names, n).Some? then Shown(LastInDay(es, habits, names, n)) else Lookup(dayData, n)
  {
    day := dayData;
    for j := 0 to |es|
      invariant forall n :: Lookup(day, n) == if LastInDay(es[..j], habits, names, n).Some? then Shown(LastInDay(es[..j], habits, names, n)) else Lookup(dayData, n)
    {
      assert es[..j + 1][..j] == es[..j];
      var habitName := Lookup(idToName, es[j].habbitId);
      assert ColumnOf(habits, names, es[j]) == if habitName.Some? && habitName.value != "" && habitName.value in names then habitName else None;
      if habitName.Some? && habitName.value != "" && habitName.value in names {
        var progress := ProgressText(es[j].habbitDidCount, es[j].habbitNeedCount);
        day := day[habitName.value := progress];
      }
    }
    assert es[..|es|] == es;
  }

  /**
   * `snapshots.forEach(...)` into `dateData`: one map per distinct date,
   * created on first sight (the date list keeps the Map's insertion order).
   */
  method CollectDateData(snaps: seq<SheetSnapshot>, idToName: map<string, string>, habits: seq<Habit>, names: seq<string>)
    returns (dateData: map<string, map<string, string>>, keys: seq<string>)
    requires forall id :: Lookup(idToName, id) == NameOf(habits, id)
    ensures forall d :: d in dateData <==> d in keys
    ensures forall d :: d in keys <==> d in DateList(snaps)
    ensures forall d, n :: d in dateData ==> Lookup(dateData[d], n) == Shown(LastEntry(snaps, habits, names, d, n))
  {
    dateData := map[];
    keys := [];
    for i := 0 to |snaps|
      invariant forall d :: d in dateData <==> d in keys
      invariant forall d :: d in keys <==> d in DateList(snaps[..i])
      invariant forall d, n :: d in dateData ==> Lookup(dateData[d], n) == Shown(LastEntry(snaps[..i], habits, names, d, n))
    {
      var snapshot := snaps[i];
      DateListStep(snaps, i);
      if snapshot.date !in dateData {
        forall n ensures LastEntry(snaps[..i], habits, names, snapshot.date, n) == None {
          LastEntryDated(snaps[..i], habits, names, snapshot.date, n);
        }
        dateData := dateData[snapshot.date := map[]];
        keys := keys + [snapshot.date];
      }
      var day := WriteDay(dateData[snapshot.date], snapshot.habbits, idToName, habits, names);
      DayDataStep(snaps, i, habits, names, dateData, day);
      dateData := dateData[snapshot.date := day];
    }
    assert snaps[..|snaps|] == snaps;
  }

  /** Writing snapshot `i` into its day's map keeps every day's map equal to the last entries written so far. */
  lemma DayDataStep(snaps: seq<SheetSnapshot>, i: nat, habits: seq<Habit>, names: seq<string>,
                    dateData: map<string, map<string, string>>, day: map<string, string>)
    requires i < |snaps| && snaps[i].date in dateData
    requires forall d, n :: d in dateData ==> Lookup(dateData[d], n) == Shown(LastEntry(snaps[..i], habits, names, d, n))
    requires forall n ::
      var e := LastInDay(snaps[i].habbits, habits, names, n);
      Lookup(day, n) == if e.Some? then Shown(e) else Lookup(dateData[snaps[i].date], n)
    ensures var m := dateData[snaps[i].date := day];
      forall d, n :: d in m ==> Lookup(m[d], n) == Shown(LastEntry(snaps[..i + 1], habits, names, d, n))
  {
    var m := dateData[snaps[i].date := day];
    forall d, n | d in m
      ensures Lookup(m[d], n) == Shown(LastEntry(snaps[..i + 1], habits, names, d, n))
    {
      LastEntryStep(snaps, i, habits, names, d, n);
    }
  }

  /** The dates of one more snapshot: the earlier dates, then its own. */
  lemma DateListStep(snaps: seq<SheetSnapshot>, i: nat)
    requires i < |snaps|
    ensures DateList(snaps[..i + 1]) == DateList(snaps[..i]) + [snaps[i].date]
  {
  }

  /** One more snapshot overrides a cell exactly when it writes an entry under that column on that day. */
  lemma LastEntryStep(snaps: seq<SheetSnapshot>, i: nat, habits: seq<Habit>, names: seq<string>, date: string, name: string)
    requires i < |snaps|
    ensures var e := LastInDay(snaps[i].habbits, habits, names, name);
      LastEntry(snaps[..i + 1], habits, names, date, name)
        == if snaps[i].date == date && e.Some? then e else LastEntry(snaps[..i], habits, names, date, name)
  {
    assert snaps[..i + 1][..i] == snaps[..i];
  }

  /** Sorting the Map's keys gives the distinct snapshot dates in ascending order. */
  lemma SortedKeysAreDates(keys: seq<string>, snaps: seq<SheetSnapshot>)
    requires forall d :: d in keys <==> d in DateList(snaps)
    ensures SortDistinct(keys) == SnapshotDates(snaps)
  {
    forall y ensures y in DateList(snaps) <==> exists i :: 0 <= i < |snaps| && snaps[i].date == y {
      if exists i :: 0 <= i < |snaps| && snaps[i].date == y {
        var i :| 0 <= i < |snaps| && snaps[i].date == y;
        assert DateList(snaps)[i] == y;
      }
    }
    AscendingUnique(SortDistinct(keys), SnapshotDates(snaps));
  }

  /** `currentHabitNames.forEach(name => row.push(dayData.get(name) || ""))` after `[date]`. */
  method BuildRow(date: string, dayData: map<string, string>, snaps: seq<SheetSnapshot>, habits: seq<Habit>, names: seq<string>)
    returns (row: Row)
    requires forall n {:trigger Cell(snaps, habits, names, date, n)} :: OrEmpty(Lookup(dayData, n)) == Cell(snaps, habits, names, date, n)
    ensures row == DataRow(snaps, habits, names, date)
  {
    var r := [];
    for j := 0 to |names|
      invariant |r| == j
      invariant forall k :: 0 <= k < j ==> r[k] == OrEmpty(Lookup(dayData, names[k]))
    {
      r := r + [OrEmpty(Lookup(dayData, names[j]))];
    }
    DataRowOf(snaps, habits, names, date, dayData, r);
    row := [date] + r;
  }

  /** A row is the data row of its date once each cell after the date is read from a day map holding that date's cells. */
  lemma DataRowOf(snaps: seq<SheetSnapshot>, habits: seq<Habit>, names: seq<string>, date: string,
                  dayData: map<string, string>, cells: seq<string>)
    requires forall n {:trigger Cell(snaps, habits, names, date, n)} :: OrEmpty(Lookup(dayData, n)) == Cell(snaps, habits, names, date, n)
    requires |cells| == |names|
    requires forall k :: 0 <= k < |names| ==> cells[k] == OrEmpty(Lookup(dayData, names[k]))
    ensures [date] + cells == DataRow(snaps, habits, names, date)
  {
    var cs := seq(|names|, j requires 0 <= j < |names| => Cell(snaps, habits, names, date, names[j]));
    assert cs == cells;
  }

  /**
   * The table-building block of populateSpreadsheetWithHabits: returns
   * nothing when there are neither habits nor snapshots, else the header
   * row followed by the data rows.
   */
  method BuildSheetRows(habits: seq<Habit>, snaps: seq<SheetSnapshot>) returns (r: Option<seq<Row>>)
    ensures r == SheetRows(habits, snaps)
  {
    if |snaps| == 0 && |habits| == 0 {
      return None;
    }
    var idToName := HabitIdToName(habits);
    var currentHabitNames := HabitNames(habits);
    var headers := [["Date"] + currentHabitNames];
    var dateData, keys := CollectDateData(snaps, idToName, habits, currentHabitNames);
    var sortedDates := SortDistinct(keys);
    SortedKeysAreDates(keys, snaps);
    var dataRows: seq<Row> := [];
    for k := 0 to |sortedDates|
      invariant |dataRows| == k
      invariant forall k' :: 0 <= k' < k ==> dataRows[k'] == DataRow(snaps, habits, currentHabitNames, sortedDates[k'])
    {
      var date := sortedDates[k];
      assert forall n :: OrEmpty(Lookup(dateData[date], n)) == Cell(snaps, habits, currentHabitNames, date, n);
      var row := BuildRow(date, dateData[date], snaps, habits, currentHabitNames);
      dataRows := dataRows + [row];
    }
    assert dataRows == seq(|sortedDates|, k requires 0 <= k < |sortedDates| => DataRow(snaps, habits, currentHabitNames, sortedDates[k]));
    r := Some(headers + dataRows);
  }
}
