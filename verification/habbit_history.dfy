/**
 * The history screen built from each habit's own history
 * (app/components/HistoryView.tsx): the habits' counts on one date, and
 * the last thirty days counted back from today.
 */
module HabbitHistory {
  import opened Wrappers
  import opened Seqs
  import opened HabitTypes
  import opened HomePage
  import opened SnapshotHistory

  /** A habit with its count and completion on one date. */
  datatype DayHabit = DayHabit(habit: TrackedHabit, countForDate: int, completedForDate: bool)

  /** One day of the list. */
  datatype HistoryDay = HistoryDay(date: Day, displayDate: DisplayDate, habits: seq<DayHabit>, completedCount: nat, totalCount: nat)

  /** `getHabitsForDate`: each habit, in order, with the first history entry of that date. */
  function HabitsForDate(habbits: seq<TrackedHabit>, date: Day): seq<DayHabit> {
    seq(|habbits|, i requires 0 <= i < |habbits| =>
      var e := Find(habbits[i].history, OnDate(date));
      DayHabit(habbits[i],
               if e.Some? then e.value.count else 0,
               e.Some? && e.value.count >= habbits[i].needCount))
  }

  /**
   * One record per habit in the same order; the count is that of the
   * habit's first history entry of the date, 0 without one; completed
   * holds exactly when such an entry exists and reaches the target.
   */
  lemma HabitsForDateSpec(habbits: seq<TrackedHabit>, date: Day)
    ensures var r := HabitsForDate(habbits, date);
      && |r| == |habbits|
      && forall i :: 0 <= i < |habbits| ==>
           && r[i].habit == habbits[i]
           && ((forall j :: 0 <= j < |habbits[i].history| ==> habbits[i].history[j].date != date) ==>
                 r[i].countForDate == 0 && !r[i].completedForDate)
           && forall k :: 0 <= k < |habbits[i].history| && habbits[i].history[k].date == date
                          && (forall j :: 0 <= j < k ==> habbits[i].history[j].date != date) ==>
                 r[i].countForDate == habbits[i].history[k].count
                 && (r[i].completedForDate <==> habbits[i].history[k].count >= habbits[i].needCount)
  {
    var r := HabitsForDate(habbits, date);
    forall i, k | 0 <= i < |habbits| && 0 <= k < |habbits[i].history| && habbits[i].history[k].date == date
                  && (forall j :: 0 <= j < k ==> habbits[i].history[j].date != date)
      ensures r[i].countForDate == habbits[i].history[k].count
    {
      var h := habbits[i].history;
      assert OnDate(date)(h[k]);
      assert forall j :: 0 <= j < k ==> !OnDate(date)(h[j]);
      assert FirstIndex(h, OnDate(date)) == k;
    }
  }

  function IsCompleted(): DayHabit -> bool {
    (h: DayHabit) => h.completedForDate
  }

  /** The record of the day `i` days before today. */
  function DayRecord(habbits: seq<TrackedHabit>, today: Day, i: int): HistoryDay {
    var hs := HabitsForDate(habbits, today - i);
    HistoryDay(today - i, FormatDisplayDate(today - i, i), hs, |Filter(hs, IsCompleted())|, |habbits|)
  }

  /** Days shown by `getLast30Days`. */
  const DAYS_SHOWN: nat := 30

  /**
   * `getLast30Days`: thirty records, the i-th for today minus i days,
   * labelled "Today" and "Yesterday" for the first two.
   */
  method GetLast30Days(habbits: seq<TrackedHabit>, today: Day) returns (days: seq<HistoryDay>)
    ensures |days| == DAYS_SHOWN
    ensures forall i :: 0 <= i < DAYS_SHOWN ==> days[i] == DayRecord(habbits, today, i)
    ensures days[0].displayDate == Today && days[1].displayDate == Yesterday
    ensures forall i :: 0 <= i < DAYS_SHOWN ==> days[i].date == today - i
  {
    days := [];
    for i := 0 to DAYS_SHOWN
      invariant |days| == i
      invariant forall j :: 0 <= j < i ==> days[j] == DayRecord(habbits, today, j)
    {
      var date := today - i;
      var habitsForDay := HabitsForDate(habbits, date);
      var completedCount := |Filter(habitsForDay, IsCompleted())|;
      var displayDate := if i == 0 then Today else if i == 1 then Yesterday else Calendar(date);
      days := days + [HistoryDay(date, displayDate, habitsForDay, completedCount, |habbits|)];
    }
  }

  /**
   * Each day lists every habit, counts as completed exactly the habits
   * completed on that date, and so never counts more completed habits
   * than there are habits.
   */
  lemma DayRecordSpec(habbits: seq<TrackedHabit>, today: Day, i: int)
    ensures var d := DayRecord(habbits, today, i);
      && |d.habits| == d.totalCount == |habbits|
      && d.completedCount == CountWhere(d.habits, IsCompleted())
      && d.completedCount <= d.totalCount
  {
    FilterCount(HabitsForDate(habbits, today - i), IsCompleted());
  }
}
