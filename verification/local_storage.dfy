/**
 * The two localStorage keys of services/apiLocalStorage.ts as the fields
 * of one object: "habits" (the habit list) and "dailySnapshots" (the
 * per-day snapshots). Each exported function becomes a method that reads
 * and rewrites those fields; the day "today" is a parameter in place of
 * the clock.
 */
module LocalStorage {
  import opened Wrappers
  import opened Seqs
  import opened HabitTypes
  import opened HabitList
  import opened DailySnapshots

  class LocalStore {
    /** The "habits" key, parsed. */
    var habits: seq<Habit>
    /** The "dailySnapshots" key, parsed. */
    var snapshots: seq<DailySnapshot>

    /** A browser with neither key set. */
    constructor ()
      ensures habits == [] && snapshots == []
      ensures StrictlySorted(snapshots)
    {
      habits := [];
      snapshots := [];
    }

    /** addHabit: refuses a taken id, else appends. */
    method AddHabit(h: Habit) returns (ok: bool)
      modifies this
      ensures ok <==> !HasId(old(habits), h.id)
      ensures habits == Added(old(habits), h)
      ensures snapshots == old(snapshots)
    {
      if HasId(habits, h.id) {
        return false;
      }
      habits := habits + [h];
      return true;
    }

    /** getHabits. */
    method GetHabits() returns (r: seq<Habit>)
      ensures r == habits
    {
      r := habits;
    }

    /** getHabit: the first habit with the id. */
    method GetHabit(id: string) returns (r: Option<Habit>)
      ensures r.Some? <==> HasId(habits, id)
      ensures r.Some? ==> r.value.id == id && r.value in habits
      ensures r == Find(habits, WithId(id))
    {
      r := Find(habits, WithId(id));
    }

    /** updateHabit: every habit with the id is replaced. */
    method UpdateHabit(h: Habit)
      modifies this
      ensures habits == Updated(old(habits), h)
      ensures snapshots == old(snapshots)
    {
      habits := Updated(habits, h);
    }

    /**
     * saveDailySnapshot: walks the list and replaces the snapshot of the
     * same date, inserts before the first later date, or appends after the
     * last element.
     */
    method SaveDailySnapshot(s: DailySnapshot) returns (ok: bool)
      modifies this
      ensures ok
      ensures snapshots == Upserted(old(snapshots), s)
      ensures habits == old(habits)
      ensures StrictlySorted(old(snapshots)) ==> StrictlySorted(snapshots)
    {
      var existing := snapshots;
      ghost var before := existing;
      if |existing| == 0 {
        existing := existing + [s];
      } else {
        var i := 0;
        var placed := false;
        while !placed && i < |existing|
          invariant 0 <= i <= |before|
          invariant !placed ==> existing == before && i < |before|
          invariant !placed ==> forall j :: 0 <= j < i ==> before[j].date < s.date
          invariant placed ==> existing == Upserted(before, s)
          invariant habits == old(habits) && snapshots == before
          decreases |before| - i, !placed
        {
          if existing[i].date == s.date {
            SlotAt(existing, s.date, i);
            existing := existing[i := s];
            placed := true;
          } else if existing[i].date > s.date {
            SlotAt(existing, s.date, i);
            existing := existing[..i] + [s] + existing[i..];
            placed := true;
          } else if i == |existing| - 1 {
            SlotAt(existing, s.date, |existing|);
            existing := existing + [s];
            placed := true;
          } else {
            i := i + 1;
          }
        }
      }
      snapshots := existing;
      ok := true;
      if StrictlySorted(before) {
        UpsertSorted(before, s);
      }
    }

    /** getTodaySnapshot: today's snapshot, created and saved when missing. */
    method GetTodaySnapshot(today: Day) returns (t: DailySnapshot)
      modifies this
      ensures t == TodaySnapshot(old(snapshots), today)
      ensures snapshots == AfterGetToday(old(snapshots), today)
      ensures habits == old(habits)
    {
      var k := FirstIndex(snapshots, OnDay(today));
      if k >= 0 {
        return snapshots[k];
      }
      if |snapshots| == 0 {
        t := Snapshot(today, []);
      } else {
        var previous := snapshots[LatestIndex(snapshots)];
        t := Snapshot(today, ResetCounts(previous.habbits));
      }
      var _ := SaveDailySnapshot(t);
    }

    /** The loop of fillHistory: saves a snapshot holding `hs` for each day from `from` up to `to`, exclusive. */
    method Backfill(from: Day, to: Day, hs: seq<HabitEntry>)
      modifies this
      ensures snapshots == Backfilled(old(snapshots), from, to, hs)
      ensures habits == old(habits)
    {
      var current := from;
      while current < to
        invariant Backfilled(snapshots, current, to, hs) == Backfilled(old(snapshots), from, to, hs)
        invariant habits == old(habits)
      {
        var saved := SaveDailySnapshot(Snapshot(current, hs));
        current := current + 1;
      }
    }

    /**
     * fillHistory: makes sure today's snapshot exists, then saves a
     * snapshot with nothing done for every day after the second latest
     * snapshot and before today.
     */
    method FillHistory(today: Day)
      modifies this
      ensures snapshots == AfterFillHistory(old(snapshots), today)
      ensures habits == old(habits)
    {
      var _ := GetTodaySnapshot(today);
      if |snapshots| > 1 {
        var previous := SecondLatest(snapshots);
        Backfill(previous.date + 1, today, ResetCounts(previous.habbits));
      }
    }

    /** getDailySnapshots: the snapshot list after filling the history. */
    method GetDailySnapshots(today: Day) returns (r: seq<DailySnapshot>)
      modifies this
      ensures r == snapshots == AfterFillHistory(old(snapshots), today)
      ensures habits == old(habits)
    {
      FillHistory(today);
      r := snapshots;
    }

    /** deleteHabbit: drops the habit's entries from today's snapshot only. */
    method DeleteHabbit(id: string, today: Day)
      modifies this
      ensures snapshots == AfterTodayEdit(old(snapshots), today, Without(TodaySnapshot(old(snapshots), today).habbits, id))
      ensures habits == old(habits)
      ensures StrictlySorted(old(snapshots)) ==> StrictlySorted(snapshots)
    {
      if StrictlySorted(snapshots) {
        TodayEditInPlace(snapshots, today, Without(TodaySnapshot(snapshots, today).habbits, id));
      }
      var t := GetTodaySnapshot(today);
      t := t.(habbits := Without(t.habbits, id));
      var _ := SaveDailySnapshot(t);
    }

    /** getCurrentNeedCount: today's target of the habit, 1 when missing or 0. */
    method GetCurrentNeedCount(id: string, today: Day) returns (n: int)
      modifies this
      ensures n == CurrentNeed(TodaySnapshot(old(snapshots), today).habbits, id)
      ensures snapshots == AfterGetToday(old(snapshots), today)
      ensures habits == old(habits)
      ensures StrictlySorted(old(snapshots)) ==> StrictlySorted(snapshots)
    {
      var t := GetTodaySnapshot(today);
      n := CurrentNeed(t.habbits, id);
      if StrictlySorted(old(snapshots)) {
        GetTodaySorted(old(snapshots), today);
      }
    }

    /** getCurrentActualCount: today's done count of the habit, 0 when missing. */
    method GetCurrentActualCount(id: string, today: Day) returns (n: int)
      modifies this
      ensures n == CurrentDid(TodaySnapshot(old(snapshots), today).habbits, id)
      ensures snapshots == AfterGetToday(old(snapshots), today)
      ensures habits == old(habits)
      ensures StrictlySorted(old(snapshots)) ==> StrictlySorted(snapshots)
    {
      var t := GetTodaySnapshot(today);
      n := CurrentDid(t.habbits, id);
      if StrictlySorted(old(snapshots)) {
        GetTodaySorted(old(snapshots), today);
      }
    }

    /** updateHabitCount: sets the done count of the habit's entry in today's snapshot. */
    method UpdateHabitCount(id: string, newCount: int, today: Day) returns (ok: bool)
      modifies this
      ensures ok
      ensures snapshots == AfterTodayEdit(old(snapshots), today, WithDid(TodaySnapshot(old(snapshots), today).habbits, id, newCount))
      ensures habits == old(habits)
      ensures StrictlySorted(old(snapshots)) ==> StrictlySorted(snapshots)
    {
      if StrictlySorted(snapshots) {
        TodayEditInPlace(snapshots, today, WithDid(TodaySnapshot(snapshots, today).habbits, id, newCount));
      }
      var t := GetTodaySnapshot(today);
      var k := FirstIndex(t.habbits, OfHabit(id));
      if k != -1 {
        t := t.(habbits := t.habbits[k := t.habbits[k].(habbitDidCount := newCount)]);
      }
      ok := SaveDailySnapshot(t);
    }

    /** updateHabitNeedCount: sets the target of the habit's entry in today's snapshot. */
    method UpdateHabitNeedCount(id: string, newNeedCount: int, today: Day) returns (ok: bool)
      modifies this
      ensures ok
      ensures snapshots == AfterTodayEdit(old(snapshots), today, WithNeed(TodaySnapshot(old(snapshots), today).habbits, id, newNeedCount))
      ensures habits == old(habits)
      ensures StrictlySorted(old(snapshots)) ==> StrictlySorted(snapshots)
    {
      if StrictlySorted(snapshots) {
        TodayEditInPlace(snapshots, today, WithNeed(TodaySnapshot(snapshots, today).habbits, id, newNeedCount));
      }
      var t := GetTodaySnapshot(today);
      var k := FirstIndex(t.habbits, OfHabit(id));
      if k != -1 {
        t := t.(habbits := t.habbits[k := t.habbits[k].(habbitNeedCount := newNeedCount)]);
      }
      ok := SaveDailySnapshot(t);
    }

    /**
     * initializeHabitsLocalStorage: clears both keys, then adds every habit
     * and saves every snapshot in order.
     */
    method InitializeHabitsLocalStorage(hs: seq<Habit>, ss: seq<DailySnapshot>) returns (ok: bool)
      modifies this
      ensures ok
      ensures habits == AddedAll(hs)
      ensures snapshots == SavedAll(ss)
      ensures StrictlySorted(snapshots)
    {
      SavedAllSpec(ss);
      snapshots := [];
      habits := [];
      for i := 0 to |hs|
        invariant habits == AddedAll(hs[..i])
        invariant snapshots == []
      {
        assert hs[..i + 1][..i] == hs[..i];
        var _ := AddHabit(hs[i]);
      }
      assert hs[..|hs|] == hs;
      for i := 0 to |ss|
        invariant snapshots == SavedAll(ss[..i])
        invariant habits == AddedAll(hs)
      {
        assert ss[..i + 1][..i] == ss[..i];
        var _ := SaveDailySnapshot(ss[i]);
      }
      assert ss[..|ss|] == ss;
      ok := true;
    }
  }
}
