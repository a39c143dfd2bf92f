/**
 * The history screen built from daily snapshots
 * (src/app/components/HistoryView.tsx): snapshots up to today, newest
 * first, with habit and note names looked up, and the per-day counts and
 * note filter it displays.
 */
module SnapshotHistory {
  import opened Wrappers
  import opened Seqs
  import opened Text
  import opened HabitTypes
  import opened HabitList
  import opened NotesSlice

  /** The text a note has on one day. */
  datatype NoteEntry = NoteEntry(noteId: string, noteText: string)

  /** A daily snapshot as this screen reads it: habit progress and, possibly, the day's notes. */
  datatype NotedSnapshot = NotedSnapshot(date: Day, habbits: seq<HabitEntry>, notes: Option<seq<NoteEntry>>)

  /** One habit's line in a day of history. */
  datatype HabitLine = HabitLine(habbitId: string, habbitText: string, habbitNeedCount: int, habbitDidCount: int)

  /** One note's line in a day of history. */
  datatype NoteLine = NoteLine(noteId: string, noteName: string, noteText: string)

  /** A day of history. */
  datatype DailyHistory = DailyHistory(date: Day, habits: seq<HabitLine>, notes: seq<NoteLine>)

  /** How a day is labelled: by its place in the list, or by its calendar date. */
  datatype DisplayDate = Today | Yesterday | Calendar(date: Day)

  const UNKNOWN_HABIT := "Unknown Habit"
  const UNKNOWN_NOTE := "Unknown Note"
  const NO_TEXT := "No text for that day"

  function OnOrBefore(today: Day): NotedSnapshot -> bool {
    (s: NotedSnapshot) => s.date <= today
  }

  /** `habit?.text || "Unknown Habit"`: the first habit with the id, when it has a non-empty text. */
  function HabitText(habits: seq<Habit>, id: string): string {
    var h := Find(habits, WithId(id));
    if h.Some? && h.value.text != "" then h.value.text else UNKNOWN_HABIT
  }

  /** `note?.name || "Unknown Note"`. */
  function NoteName(notes: seq<Note>, id: string): string {
    var n := Find(notes, NoteWithId(id));
    if n.Some? && n.value.name != "" then n.value.name else UNKNOWN_NOTE
  }

  /** One snapshot as a day of history; missing notes read as none. */
  function DayOf(habits: seq<Habit>, notes: seq<Note>, s: NotedSnapshot): DailyHistory {
    var ns := if s.notes.Some? then s.notes.value else [];
    DailyHistory(
      s.date,
      seq(|s.habbits|, i requires 0 <= i < |s.habbits| =>
        HabitLine(s.habbits[i].habbitId, HabitText(habits, s.habbits[i].habbitId),
                  s.habbits[i].habbitNeedCount, s.habbits[i].habbitDidCount)),
      seq(|ns|, i requires 0 <= i < |ns| => NoteLine(ns[i].noteId, NoteName(notes, ns[i].noteId), ns[i].noteText)))
  }

  /** `.reverse()`. */
  function Reverse<T>(s: seq<T>): seq<T> {
    seq(|s|, i requires 0 <= i < |s| => s[|s| - 1 - i])
  }

  /** The history: the snapshots dated up to today, each as a day of history, newest position first. */
  function History(habits: seq<Habit>, notes: seq<Note>, snapshots: seq<NotedSnapshot>, today: Day): seq<DailyHistory> {
    var kept := Filter(snapshots, OnOrBefore(today));
    Reverse(seq(|kept|, i requires 0 <= i < |kept| => DayOf(habits, notes, kept[i])))
  }

  /**
   * The history has one day per snapshot dated on or before today, in the
   * reverse of their order, each keeping its snapshot's date.
   */
  lemma HistoryOrder(habits: seq<Habit>, notes: seq<Note>, snapshots: seq<NotedSnapshot>, today: Day)
    ensures var r := History(habits, notes, snapshots, today);
      var kept := Filter(snapshots, OnOrBefore(today));
      && |r| == CountWhere(snapshots, OnOrBefore(today))
      && forall i :: 0 <= i < |r| ==> r[i].date <= today && r[i] == DayOf(habits, notes, kept[|kept| - 1 - i])
  {
    FilterCount(snapshots, OnOrBefore(today));
    var r := History(habits, notes, snapshots, today);
    var kept := Filter(snapshots, OnOrBefore(today));
    forall i | 0 <= i < |r| ensures r[i].date <= today && r[i] == DayOf(habits, notes, kept[|kept| - 1 - i]) {
      HistoryAt(habits, notes, snapshots, today, i);
    }
  }

  /** Day `i` of the history is the snapshot kept `i` places from the end, dated on or before today. */
  lemma HistoryAt(habits: seq<Habit>, notes: seq<Note>, snapshots: seq<NotedSnapshot>, today: Day, i: nat)
    requires i < |History(habits, notes, snapshots, today)|
    ensures var r := History(habits, notes, snapshots, today);
      var kept := Filter(snapshots, OnOrBefore(today));
      && |r| == |kept|
      && r[i] == DayOf(habits, notes, kept[|kept| - 1 - i])
      && kept[|kept| - 1 - i] in snapshots
      && r[i].date <= today
  {
    var kept := Filter(snapshots, OnOrBefore(today));
    var days := seq(|kept|, j requires 0 <= j < |kept| => DayOf(habits, notes, kept[j]));
    ReverseAt(days, i);
    assert OnOrBefore(today)(kept[|kept| - 1 - i]);
  }

  /** Place `i` of a reversed sequence holds the element `i` places from the end. */
  lemma ReverseAt<T>(s: seq<T>, i: nat)
    requires i < |s|
    ensures |Reverse(s)| == |s| && Reverse(s)[i] == s[|s| - 1 - i]
  {
  }

  /** Every snapshot dated on or before today appears in the history, and nothing else does. */
  lemma HistoryMembers(habits: seq<Habit>, notes: seq<Note>, snapshots: seq<NotedSnapshot>, today: Day)
    ensures var r := History(habits, notes, snapshots, today);
      && (forall s :: s in snapshots && s.date <= today ==> DayOf(habits, notes, s) in r)
      && (forall d :: d in r ==> exists s :: s in snapshots && s.date <= today && d == DayOf(habits, notes, s))
  {
    forall s | s in snapshots && s.date <= today ensures DayOf(habits, notes, s) in History(habits, notes, snapshots, today) {
      HistoryHas(habits, notes, snapshots, today, s);
    }
    forall d | d in History(habits, notes, snapshots, today)
      ensures exists s :: s in snapshots && s.date <= today && d == DayOf(habits, notes, s)
    {
      HistoryFrom(habits, notes, snapshots, today, d);
    }
  }

  /** A day of the history comes from a snapshot dated on or before today. */
  lemma HistoryFrom(habits: seq<Habit>, notes: seq<Note>, snapshots: seq<NotedSnapshot>, today: Day, d: DailyHistory)
    requires d in History(habits, notes, snapshots, today)
    ensures exists s :: s in snapshots && s.date <= today && d == DayOf(habits, notes, s)
  {
    var r := History(habits, notes, snapshots, today);
    var kept := Filter(snapshots, OnOrBefore(today));
    var i :| 0 <= i < |r| && r[i] == d;
    HistoryAt(habits, notes, snapshots, today, i);
    var s := kept[|kept| - 1 - i];
    assert s in snapshots && s.date <= today && d == DayOf(habits, notes, s);
  }

  /** A snapshot dated on or before today has its day in the history. */
  lemma HistoryHas(habits: seq<Habit>, notes: seq<Note>, snapshots: seq<NotedSnapshot>, today: Day, s: NotedSnapshot)
    requires s in snapshots && s.date <= today
    ensures DayOf(habits, notes, s) in History(habits, notes, snapshots, today)
  {
    var r := History(habits, notes, snapshots, today);
    var kept := Filter(snapshots, OnOrBefore(today));
    var j :| 0 <= j < |snapshots| && snapshots[j] == s;
    assert OnOrBefore(today)(snapshots[j]);
    assert s in kept;
    var k :| 0 <= k < |kept| && kept[k] == s;
    assert r[|kept| - 1 - k] == DayOf(habits, notes, s);
  }

  /**
   * Each day of history lists the snapshot's habits in order with their
   * counts unchanged, named by the first habit with the id when that has a
   * text and "Unknown Habit" otherwise; a snapshot without notes shows
   * none, and a note whose id is unknown is named "Unknown Note".
   */
  lemma DayOfSpec(habits: seq<Habit>, notes: seq<Note>, s: NotedSnapshot)
    ensures var d := DayOf(habits, notes, s);
      && d.date == s.date
      && |d.habits| == |s.habbits|
      && (forall i :: 0 <= i < |s.habbits| ==>
            && d.habits[i].habbitId == s.habbits[i].habbitId
            && d.habits[i].habbitNeedCount == s.habbits[i].habbitNeedCount
            && d.habits[i].habbitDidCount == s.habbits[i].habbitDidCount)
      && (s.notes.None? ==> d.notes == [])
      && (s.notes.Some? ==>
            |d.notes| == |s.notes.value|
            && forall i :: 0 <= i < |d.notes| ==> d.notes[i].noteId == s.notes.value[i].noteId && d.notes[i].noteText == s.notes.value[i].noteText)
  {
  }

  /** A habit line's text: the first habit with the id, when it has a text; "Unknown Habit" when there is no such habit. */
  lemma HabitTextSpec(habits: seq<Habit>, id: string)
    ensures !HasId(habits, id) ==> HabitText(habits, id) == UNKNOWN_HABIT
    ensures HasId(habits, id) ==>
      exists k :: 0 <= k < |habits| && habits[k].id == id && (forall j :: 0 <= j < k ==> habits[j].id != id)
        && HabitText(habits, id) == (if habits[k].text != "" then habits[k].text else UNKNOWN_HABIT)
  {
    var k := FirstIndex(habits, WithId(id));
    if k >= 0 {
      forall j | 0 <= j < k ensures habits[j].id != id {
        assert !WithId(id)(habits[j]);
      }
      assert habits[k].id == id;
      assert HabitText(habits, id) == (if habits[k].text != "" then habits[k].text else UNKNOWN_HABIT);
    } else {
      forall j | 0 <= j < |habits| ensures habits[j].id != id {
        assert !WithId(id)(habits[j]);
      }
    }
  }

  /** A note line's name: the first note with the id, when it has a name; "Unknown Note" when there is no such note. */
  lemma NoteNameSpec(notes: seq<Note>, id: string)
    ensures !HasNote(notes, id) ==> NoteName(notes, id) == UNKNOWN_NOTE
    ensures HasNote(notes, id) ==>
      exists k :: 0 <= k < |notes| && notes[k].id == id && (forall j :: 0 <= j < k ==> notes[j].id != id)
        && NoteName(notes, id) == (if notes[k].name != "" then notes[k].name else UNKNOWN_NOTE)
  {
    var k := FirstIndex(notes, NoteWithId(id));
    if k >= 0 {
      forall j | 0 <= j < k ensures notes[j].id != id {
        assert !NoteWithId(id)(notes[j]);
      }
      assert notes[k].id == id;
      assert NoteName(notes, id) == (if notes[k].name != "" then notes[k].name else UNKNOWN_NOTE);
    } else {
      forall j | 0 <= j < |notes| ensures notes[j].id != id {
        assert !NoteWithId(id)(notes[j]);
      }
    }
  }

  /** `formatDisplayDate`: index 0 is today, index 1 yesterday, the others their calendar date. */
  function FormatDisplayDate(date: Day, dayIndex: int): (r: DisplayDate)
    ensures r == Today <==> dayIndex == 0
    ensures r == Yesterday <==> dayIndex == 1
    ensures dayIndex != 0 && dayIndex != 1 ==> r == Calendar(date)
  {
    if dayIndex == 0 then Today else if dayIndex == 1 then Yesterday else Calendar(date)
  }

  function IsDone(): HabitLine -> bool {
    (h: HabitLine) => h.habbitDidCount >= h.habbitNeedCount
  }

  /** `getCompletedCount`: how many lines have their done count at or above the target. */
  function CompletedCount(lines: seq<HabitLine>): nat {
    |Filter(lines, IsDone())|
  }

  /** `getTotalCount`. */
  function TotalCount(lines: seq<HabitLine>): nat {
    |lines|
  }

  /**
   * The completed count counts exactly the lines with done ≥ target: it is
   * never more than the total, zero exactly when no line is done, and the
   * total exactly when every line is.
   */
  lemma CompletedCountSpec(lines: seq<HabitLine>)
    ensures CompletedCount(lines) == CountWhere(lines, IsDone())
    ensures CompletedCount(lines) <= TotalCount(lines)
    ensures CompletedCount(lines) == 0 <==> forall i :: 0 <= i < |lines| ==> lines[i].habbitDidCount < lines[i].habbitNeedCount
    ensures CompletedCount(lines) == TotalCount(lines) <==> forall i :: 0 <= i < |lines| ==> lines[i].habbitDidCount >= lines[i].habbitNeedCount
  {
    FilterCount(lines, IsDone());
    assert forall i :: 0 <= i < |lines| ==> (IsDone()(lines[i]) <==> lines[i].habbitDidCount >= lines[i].habbitNeedCount);
  }

  /** A note with something to show: non-blank text that is not the placeholder. */
  function IsShown(): NoteLine -> bool {
    (n: NoteLine) => n.noteText != "" && Trim(n.noteText) != "" && n.noteText != NO_TEXT
  }

  /** The notes a day displays. */
  function VisibleNotes(lines: seq<NoteLine>): seq<NoteLine> {
    Filter(lines, IsShown())
  }

  /**
   * A note is displayed exactly when its text has a character that is not
   * blank and is not "No text for that day"; the displayed notes keep
   * their order, and filtering again changes nothing.
   */
  lemma VisibleNotesSpec(lines: seq<NoteLine>)
    ensures forall n :: n in VisibleNotes(lines) <==>
      n in lines && (exists i :: 0 <= i < |n.noteText| && !IsTrimmed(n.noteText[i])) && n.noteText != NO_TEXT
    ensures VisibleNotes(VisibleNotes(lines)) == VisibleNotes(lines)
  {
    FilterAll(VisibleNotes(lines), IsShown());
    forall n | n in lines
      ensures IsShown()(n) <==> (exists i :: 0 <= i < |n.noteText| && !IsTrimmed(n.noteText[i])) && n.noteText != NO_TEXT
    {
      if n.noteText == "" {
        assert Trim(n.noteText) == "";
      }
    }
    forall n | n in lines && IsShown()(n) ensures n in VisibleNotes(lines) {
      var i :| 0 <= i < |lines| && lines[i] == n;
    }
  }
}
